# Smart charging service, modelled in Dafny

This project models the smart-charging service of RealmeParts
(`SmartChargingService`). The service watches the battery through five
kernel attributes:

- the cooldown level;
- the instantaneous current;
- the charging on/off flag (`mmi_charging_enable`);
- the capacity;
- the temperature.

Each attribute lives either in the legacy `/sys/class/power_supply/battery/`
directory or in the newer `/sys/devices/virtual/oplus_chg/battery/` one.
Every battery change runs one charging cycle:

1. The five values are read in one batch, making up to three attempts,
   500 ms apart.
2. The thermal rule sets the cooldown level, either from the `charging_speed`
   setting or by auto-mode hysteresis between 38.5 and 39.5 degrees Celsius.
3. The charge-limit rule stops charging at or above the user's limit and
   resumes it below, notifying the user when power is connected.

A second receiver handles power connection and disconnection:

- It registers the battery listener on a connection broadcast (unless it
  is already registered) and unregisters it on a disconnection. After each
  broadcast it handles to the end, the listener is registered exactly when
  that broadcast was a connection, and registrations and unregistrations
  balance the listener flag. A charger already plugged in when the service
  starts sends no connection broadcast, so the listener does not simply
  follow the charger. A broadcast whose capacity read does not parse throws
  an exception that escapes the receiver; the model ends the run of
  broadcasts there.
- It posts or cancels the status notification.
- It resets the battery statistics on unplugging at the limit when the user
  asked for it.

The files:

- `sysfs.dfy` (module `Sysfs`): the attributes and their two candidate paths,
  path resolution, cooldown availability, the sysfs state as a value, parsing
  a read into a Java `int`, and a best-effort write.
- `policy.dfy` (module `Policy`): the thermal and charge-limit decisions as
  pure functions, with the hysteresis and idempotence lemmas.
- `cycle.dfy` (module `Cycle`): a charging cycle as a value. It gives the
  event log of the retry loop and of both rules, and the sysfs state the
  writes leave. The lemmas cover the bounded retry, a silent abandonment, the
  writes the cycle is allowed, stopping at the limit, and idempotence across
  consecutive cycles.
- `session.dfy` (module `Session`): the power-connection receiver as a
  function, with the register/unregister balance over any run of broadcasts.
- `service.dfy` (module `Service`): the class `SmartChargingService`. It
  holds the sysfs state, the event log, the listener flag
  (`mconnectionInfoReceiver`) and the stored preferences. Its imperative
  methods are the charging cycle, with the retry loop as a `while` loop, and
  the connection receiver. Each is proved to produce exactly the log and the
  state that the value model in `Cycle` and `Session` describes.

The model makes these modelling choices:

- **Temperature** is kept in the tenths of a degree the kernel reports. The
  service divides it by ten in `float` and compares with 39.5 and 38.5. Both
  are exact in binary and the division is monotone, so the comparison holds
  exactly when the raw value is at least 395, or at most 385.
- **Reads.** Each read either parses or fails. A read fails when the resolved
  file holds no integer, when its integer does not fit in an `int`, or when
  the path is in that attempt's `faults` set. Those sets are a parameter
  standing for transient garbage in the file.
- **Writes** are recorded in the log as issued. They change the file only
  when it accepts writes.
- **External inputs** are parameters of the cycle: the `charging_speed`
  setting and what `Utils.isPowerConnected` reports.

## Model

| member | source | states |
|---|---|---|
| Sysfs.PathNameInjective | src/com/realmeparts/services/SmartChargingService.java:43-55 | the ten candidate paths are ten different files, so each `Path` value names exactly one file |
| Sysfs.ResolvePath | src/com/realmeparts/services/SmartChargingService.java:175-177 | the resolved path is of the requested attribute, and it is the new location exactly when that file exists (the legacy one otherwise) |
| Sysfs.CoolDownAvailable | src/com/realmeparts/services/SmartChargingService.java:179-181 | cooldown is available exactly when some cooldown candidate, legacy or new, is writable, whichever of them exists |
| Sysfs.ReadAttr | src/com/realmeparts/services/SmartChargingService.java:115-119 | a read parses exactly when the resolved file is not garbled and holds an integer within `int` range, and it then yields that integer |
| Sysfs.WriteAt | src/com/realmeparts/services/SmartChargingService.java:155-156 | a write stores the value when the file is writable, leaves the state unchanged when it is not, and never changes which files exist or are writable |
| Sysfs.WriteAtFrame | src/com/realmeparts/services/SmartChargingService.java:155-156 | a write leaves every other file's presence and contents unchanged |
| Sysfs.Neg32 | src/com/realmeparts/services/SmartChargingService.java:118 | Java negation of the current: the exact negative except for `Integer.MIN_VALUE`, and always the negation modulo 2^32 |
| Policy.ThermalDecision | src/com/realmeparts/services/SmartChargingService.java:138-151 | the thermal rule writes only when cooldown is available and the flag is exactly 1, never rewrites the level already read, and in auto mode writes only 0 or 2 |
| Policy.SpeedOverride | src/com/realmeparts/services/SmartChargingService.java:139-141 | with an explicit speed setting, the setting is written exactly when the cooldown level differs from it (both directions) |
| Policy.AutoHysteresis | src/com/realmeparts/services/SmartChargingService.java:142-150 | auto mode throttles (writes 2) exactly at 39.5 degrees or more from level 0, releases (writes 0) exactly at 38.5 degrees or less from level 2, and otherwise writes nothing |
| Policy.AutoLevelsHysteresis | src/com/realmeparts/services/SmartChargingService.java:142-150 | over successive auto-mode thermal decisions from level 0 or 2, each reading back the level the previous one chose, each hot decision ends at 2, each cool one at 0, and each one in the band keeps the previous level (`Cycle.AutoCycleStep` says when a real cycle reads that level back) |
| Policy.AutoStuck | src/com/realmeparts/services/SmartChargingService.java:142-150 | auto mode writes nothing when the cooldown level is neither 0 nor 2 |
| Policy.AutoLevelsStuck | src/com/realmeparts/services/SmartChargingService.java:142-150 | over successive auto-mode thermal decisions, each reading back the level the previous one chose, a level other than 0 and 2 (one an explicit speed setting left, say) stays as it is |
| Policy.HysteresisScenario | src/com/realmeparts/services/SmartChargingService.java:142-150 | 39.6, 39.0 and 38.4 degrees from level 0 give levels 2, 2, 0 |
| Policy.LimitDecision | src/com/realmeparts/services/SmartChargingService.java:154-167 | stop exactly when capacity is at or above the limit (equality included) and the flag is not 0; resume exactly when below and the flag is not 1; otherwise no change |
| Policy.LimitIdempotent | src/com/realmeparts/services/SmartChargingService.java:154-167 | deciding again on the flag the first decision wrote, at the same capacity and limit, changes nothing |
| Cycle.Attempt | src/com/realmeparts/services/SmartChargingService.java:114-120 | one attempt's events are the reads of a non-empty prefix of temperature, capacity, cooldown, current, flag, each at its resolved path; a successful attempt reads all five |
| Cycle.AttemptStopsAtFirstFailure | src/com/realmeparts/services/SmartChargingService.java:114-121 | an attempt succeeds exactly when all five values parse, and it then carries them in order; a failed attempt ends at the first value that does not parse |
| Cycle.SampleOf | src/com/realmeparts/services/SmartChargingService.java:115-119 | the sample holds temperature, capacity, cooldown and flag as read, and a current whose Java negation is the value read |
| Cycle.ReadTelemetry | src/com/realmeparts/services/SmartChargingService.java:113-134 | the retry loop makes at least one and at most three attempts, and all three when it gives up |
| Cycle.TelemetrySucceeds | src/com/realmeparts/services/SmartChargingService.java:114-120 | an attempt that gets through ends the retry loop with that attempt's sample and reads |
| Cycle.TelemetryFails | src/com/realmeparts/services/SmartChargingService.java:121-133 | a failed attempt ends the loop with no sample after the third attempt, and otherwise is followed by a 500 ms pause and the loop from the next attempt, whose sample it keeps |
| Cycle.BatchShape | src/com/realmeparts/services/SmartChargingService.java:114-120 | every attempt begins with the temperature read, reads only resolved paths, starts one attempt and contains no pause |
| Cycle.TelemetrySamplingOnly | src/com/realmeparts/services/SmartChargingService.java:113-134 | the retry loop only reads resolved paths and pauses 500 ms, and begins with the temperature read |
| Cycle.TelemetryCounts | src/com/realmeparts/services/SmartChargingService.java:113-134 | the retry loop makes between one and three attempts, with exactly one 500 ms pause between consecutive attempts |
| Cycle.TelemetryRestarts | src/com/realmeparts/services/SmartChargingService.java:121-133 | every pause is followed by the temperature read: a retry restarts the whole batch |
| Cycle.TelemetryReadsFs | src/com/realmeparts/services/SmartChargingService.java:115-119 | a sample that gets through holds what the five resolved files contain, with the current negated |
| Cycle.TelemetryIsSilent | src/com/realmeparts/services/SmartChargingService.java:113-134 | the retry loop writes nothing, notifies nobody and leaves sysfs as it was |
| Cycle.ThermalEvents | src/com/realmeparts/services/SmartChargingService.java:138-151 | the thermal rule issues at most one write, exactly when the decision is to write, and it goes to the resolved cooldown path with a level other than the one read, only when cooldown is available and the flag is 1; the level written is exactly the one the decision chose (the speed setting, 2 or 0) |
| Cycle.LimitEvents | src/com/realmeparts/services/SmartChargingService.java:153-167 | the limit rule issues at most three events, and none exactly when its decision is no change |
| Cycle.CycleTrace | src/com/realmeparts/services/SmartChargingService.java:97-173 | a cycle's events begin with exactly the retry loop's, add at most four more, and are only the retry loop's when no sample got through |
| Cycle.UnreadableCoolDownFails | src/com/realmeparts/services/SmartChargingService.java:113-134 | when the resolved cooldown file holds no integer, every attempt fails and the retry loop gives up |
| Cycle.UnreadableCoolDownBlocksLimit | src/com/realmeparts/services/SmartChargingService.java:113-167 | a cooldown file that holds no integer disables the whole cycle, the charge limit included: no sample, no write, no notification, sysfs unchanged |
| Cycle.ExhaustedCycleIsSilent | src/com/realmeparts/services/SmartChargingService.java:121-126 | after the third failed attempt the cycle has made three attempts and two pauses, writes nothing, notifies nobody, and leaves sysfs unchanged |
| Cycle.CycleSplit | src/com/realmeparts/services/SmartChargingService.java:136-167 | a cycle that reads a sample logs the retry loop, then the thermal write (always to the resolved cooldown path), then the limit rule's events |
| Cycle.CycleWritesOnlyControls | src/com/realmeparts/services/SmartChargingService.java:138-167 | in a cycle: every access goes to a resolved path; writes occur only after a sample was read and only to the cooldown level or the flag; the flag gets only 0 or 1; the cooldown level is written only when cooldown is available and the flag read is not 0 |
| Cycle.LimitEventsSpec | src/com/realmeparts/services/SmartChargingService.java:154-167 | the limit rule writes flag 0 exactly when capacity is at or above the limit and the flag is not 0, and flag 1 exactly when below and the flag is not 1; each notification goes with its write exactly when power is connected; the forced cooldown 0 write is issued exactly on a stop with cooldown available |
| Cycle.LimitWritesControls | src/com/realmeparts/services/SmartChargingService.java:155-162 | the limit rule writes only the resolved cooldown and flag paths |
| Cycle.CycleLimitEvents | src/com/realmeparts/services/SmartChargingService.java:153-167 | in a whole cycle's log: the flag writes of 0 and 1 and the stopped and status notifications each occur exactly under the limit rule's conditions (nothing earlier in the cycle produces them) |
| Cycle.StopLeavesCoolDownZero | src/com/realmeparts/services/SmartChargingService.java:138-156 | when a cycle stops charging and the resolved cooldown file is writable, the cooldown level is 0 afterwards, whatever the thermal rule wrote first |
| Cycle.CycleKeepsCapacity | src/com/realmeparts/services/SmartChargingService.java:97-173 | no cycle writes the capacity file |
| Cycle.CycleLeavesFlag | src/com/realmeparts/services/SmartChargingService.java:153-167 | the last flag write of a cycle is the flag the limit rule decided on, and there is none when it decided no change |
| Cycle.FlagAfterCycle | src/com/realmeparts/services/SmartChargingService.java:153-167 | when the flag file accepts writes, after a cycle it holds the flag the limit rule decided on |
| Cycle.NextCapacity | src/com/realmeparts/services/SmartChargingService.java:116 | no cycle changes the capacity file, so a cycle run directly on the state it left reads the same capacity |
| Cycle.NextFlag | src/com/realmeparts/services/SmartChargingService.java:119 | the next cycle reads the flag this cycle's limit rule left, when the flag file accepts writes |
| Cycle.CoolDownAfterCycle | src/com/realmeparts/services/SmartChargingService.java:138-167 | after a cycle that read a sample and did not stop at the limit, a writable resolved cooldown file holds the level the thermal rule chose, or the level read when it chose none |
| Cycle.NextCoolDown | src/com/realmeparts/services/SmartChargingService.java:117 | under the same conditions, the next cycle reads that level back, whatever the kernel changed in between except the cooldown file itself |
| Cycle.AutoCycleStep | src/com/realmeparts/services/SmartChargingService.java:142-150 | an auto-mode cycle with the flag at 1, below the limit and with a writable resolved cooldown file is one step of `AutoLevels`: the next cycle, whatever temperature it then reads, starts from the level `AutoLevels` gives for this cycle's temperature, so successive cycles over changing temperatures chain as `AutoLevels` does |
| Cycle.UnchangedWritesNoFlag | src/com/realmeparts/services/SmartChargingService.java:153-167 | a cycle whose limit rule decides no change writes no charging flag |
| Cycle.CycleIdempotent | src/com/realmeparts/services/SmartChargingService.java:153-167 | a cycle run on the state the previous cycle left, with the same limit and unchanged capacity, writes no charging flag (provided the flag file accepted the previous write) |
| Cycle.LimitLastWrite | src/com/realmeparts/services/SmartChargingService.java:154-167 | the limit rule's last flag write is its decided flag, or none when it decided no change |
| Session.UserLimit | src/com/realmeparts/services/SmartChargingService.java:110 | the stored `seek_bar` limit, or 95 when none is stored |
| Session.ResetStatsEnabled | src/com/realmeparts/services/SmartChargingService.java:84 | the `reset_stats` switch is on exactly when `true` is stored |
| Session.OnConnection | src/com/realmeparts/services/SmartChargingService.java:69-95 | the capacity is read first; the handler completes exactly when it parses (otherwise nothing else happens and the flag stays); once complete, the listener flag is set exactly on connection |
| Session.ConnectionEffects | src/com/realmeparts/services/SmartChargingService.java:72-93 | one registration exactly on a completed connection with the listener unregistered; one unregistration exactly on a completed disconnection with it registered; at most one statistics reset, exactly when the switch is on and the stored limit equals the capacity file; the status notice exactly on a powered connection; a cancel exactly on disconnection |
| Session.ReplayStopsAtFailure | src/com/realmeparts/services/SmartChargingService.java:72 | a broadcast whose capacity does not parse ends the run after the capacity read, with the flag as it was |
| Session.ListenerBalance | src/com/realmeparts/services/SmartChargingService.java:74-90 | over any run of broadcasts (ending at the first one that throws), the flag before plus registrations minus unregistrations is the flag after |
| Session.ListenerNeverDoubled | src/com/realmeparts/services/SmartChargingService.java:57-90 | at every point of a run the balance of registrations over unregistrations stays 0 or 1: the battery listener is never registered twice over |
| Service.SmartChargingService.constructor | src/com/realmeparts/services/SmartChargingService.java:57 | the service starts with the given sysfs state and preferences, an empty log and the battery listener not registered |
| Service.SmartChargingService.ReadAttribute | src/com/realmeparts/services/SmartChargingService.java:115-119 | reading an attribute logs a read of its resolved path and returns what `ReadAttr` gives |
| Service.SmartChargingService.WriteValue | src/com/realmeparts/services/SmartChargingService.java:155-156 | writing logs the write to the resolved path and leaves sysfs as `WriteAt` describes |
| Service.SmartChargingService.ReadBatch | src/com/realmeparts/services/SmartChargingService.java:114-120 | the five sequential reads, with early exit, produce exactly `Attempt`'s values and log |
| Service.SmartChargingService.ReadWithRetries | src/com/realmeparts/services/SmartChargingService.java:103-134 | the retry loop returns `ReadTelemetry`'s sample and appends exactly its log, including the pauses, and changes no file |
| Service.SmartChargingService.ApplyThermalRule | src/com/realmeparts/services/SmartChargingService.java:138-151 | the thermal rule appends exactly the thermal events and leaves sysfs as they dictate |
| Service.SmartChargingService.ApplyLimitRule | src/com/realmeparts/services/SmartChargingService.java:153-167 | the limit rule appends exactly the limit events (cooldown 0, flag, notice, in that order) and leaves sysfs as they dictate |
| Service.SmartChargingService.UpdateChargingStatus | src/com/realmeparts/services/SmartChargingService.java:97-173 | one cycle appends exactly `CycleTrace` to the log and leaves sysfs as applying that trace does, so every `Cycle` lemma holds of it |
| Service.SmartChargingService.OnConnectionEvent | src/com/realmeparts/services/SmartChargingService.java:69-95 | the receiver appends exactly `OnConnection`'s events and leaves the listener flag as `OnConnection` says, so `ConnectionEffects` and `ListenerBalance` hold of it |

## Notes on the code's behaviour

- **The charging flag is compared as a raw integer.** The thermal rule needs
  it to equal 1, stopping needs it not to be 0, and resuming needs it not to
  be 1. A flag holding any other value is therefore rewritten by the limit
  rule, and the thermal rule skips it.
- **Stopping always writes cooldown 0 when cooldown is available.** It does so
  whatever the level was, not only when the level was nonzero.
- **Cooldown availability looks at both candidate files.** It is true when
  either one is writable, while every write goes to the file resolved by
  existence. When the existing file is not the writable one, the write is
  issued and does not take effect.
- **A cooldown write does not require the flag to be exactly 1.** The stop
  branch writes cooldown 0 with any flag other than 0, so "the cooldown is
  written only while charging is enabled" holds as "only while the flag read
  is not 0" (`Cycle.CycleWritesOnlyControls`).
- **An unreadable cooldown file disables the charge limit.** The cooldown
  read (line 117) is inside the retry `try`. A resolved cooldown file that
  holds no integer therefore makes every attempt fail, and the limit rule
  never runs (`Cycle.UnreadableCoolDownBlocksLimit`). An unwritable cooldown
  file, by contrast, only skips the cooldown writes.
- **Auto mode never leaves a level other than 0 or 2.** A level such as 1,
  left by an earlier explicit `charging_speed`, stays under auto mode until
  a stop at the limit writes 0 (`Policy.AutoStuck`, `Policy.AutoLevelsStuck`).
- **An unparsable capacity ends the connection receiver.** The read at line
  72 is not inside any `try`, so the exception escapes the receiver before it
  registers, unregisters or notifies. The receiver runs on the main thread,
  where an uncaught exception ends the app's process. The model ends the
  handler after the read, logs nothing else, and handles no later broadcast
  (`Session.ReplayStopsAtFailure`).

## Left out

- Android lifecycle: `onCreate`, `onDestroy` and `onBind`. This covers
  registering the receivers, the wake lock, and the preference-change
  listener that reruns the cycle when `seek_bar` changes (lines 192-247).
  The stored preferences are a fixed field of the service object.
- Kernel-side changes to sysfs within a cycle: between attempts, and
  between the reads and the writes, the battery's temperature, capacity,
  current, cooldown level and flag change only through the service's own
  writes.
- Cycle.NextCapacity, Cycle.NextFlag, Cycle.CycleIdempotent: these are about a
  cycle run directly on the state the previous one left, with no kernel
  update in between. Cycle.CoolDownAfterCycle is about that state itself.
- Cycle.NextCoolDown, Cycle.AutoCycleStep: the next cycle may run on any
  state with the same files, but the cooldown file must hold what the
  previous cycle left there; a kernel-side change to the cooldown level
  between cycles is not covered.
- Session.OnConnection, Session.ListenerBalance, Session.ListenerNeverDoubled:
  the escaping capacity exception is an early return that keeps the flag and
  ends the run of broadcasts. The process ending, and with it the service's
  receivers and the battery listener, is not modelled.
- Policy.AutoLevelsHysteresis, Policy.AutoLevelsStuck: these are about
  successive thermal decisions. A real cycle reads the chosen level back only
  when it does not stop at the limit and the resolved cooldown file accepts
  writes (`Cycle.AutoCycleStep`); a stop forces level 0, and a write to an
  unwritable resolved file is lost.
- `Handler.post`: the cycle runs synchronously, because all cycles run one at
  a time on one handler thread.
- Logging (`Log.d`/`Log.e`): it has no effect on state.
- `Utils` is not part of this model. `readLine`, `writeValue`, `fileExists`
  and `fileWritable` are modelled through the sysfs value. A read yields the
  parsed integer, or fails. A write changes the file only when it is
  writable.
- `resetStats`, `AppNotification.Send`/`Cancel` and `registerReceiver`/
  `unregisterReceiver` are external calls. They are recorded as events, and
  their own effects and failures are not modelled.
- The `charging_speed` secure setting and `Utils.isPowerConnected` are
  parameters. Power is sampled once per cycle, and once per broadcast.
- `InterruptedException` during the 500 ms pause: the pause is an event, and
  no time passes in the model.
- The outer `catch (Exception e)` of the cycle: no modelled step throws past
  the retry loop, so it never fires in the model.
- Intents other than power connected and power disconnected: the receiver is
  registered only for those two.
- Sysfs.ReadAttr: a read either returns the file's integer or fails. The
  model does not look at the text itself, so leading `+`, non-ASCII digits
  and other `parseInt` details are collapsed into "holds an integer".
