/** The power-connection receiver: on a connection broadcast it registers
    the battery listener unless it already is, on a disconnection it
    unregisters it, so after each broadcast it handles to the end the
    listener flag says whether the last one was a connection. It also posts
    or cancels the status notification, and resets the battery statistics on
    unplugging at the limit when the user asked for it. A charger already
    plugged in when the service starts sends no connection broadcast, so the
    receiver alone does not make the listener follow the charger. A capacity
    that does not parse throws out of the receiver, which nothing catches;
    a run of broadcasts ends there. */
module Session {
  import opened Sysfs
  import opened Cycle

  /** The two stored preferences the service reads; `None` when the key was
      never stored. */
  datatype Prefs = Prefs(seekBar: Option<int32>, resetStats: Option<bool>)

  /** The charge limit stored under `seek_bar`, 95 when absent. */
  const DEFAULT_LIMIT: int32 := 95

  function UserLimit(prefs: Prefs): (limit: int32)
    ensures prefs.seekBar == Some(limit) || (prefs.seekBar == None && limit == DEFAULT_LIMIT)
  {
    match prefs.seekBar
    case Some(v) => v
    case None => DEFAULT_LIMIT
  }

  /** The `reset_stats` switch, off when absent. */
  function ResetStatsEnabled(prefs: Prefs): (enabled: bool)
    ensures enabled <==> prefs.resetStats == Some(true)
  {
    match prefs.resetStats
    case Some(b) => b
    case None => false
  }

  /** The two broadcasts the receiver is registered for. */
  datatype PowerAction = PowerConnected | PowerDisconnected

  /** What handling one broadcast did: its events, the listener flag
      afterwards, and whether the handler got past the capacity read. */
  datatype Outcome = Outcome(trace: seq<Event>, registered: bool, completed: bool)

  /** One broadcast. The capacity is read first, whatever the action; when it
      does not parse the exception escapes the handler, which does nothing
      else and leaves the flag as it was. On connection
      the battery listener is registered unless it already is, and the status
      notification is posted if power is connected. On disconnection the
      statistics are reset when the switch is on and the limit equals the
      capacity just read, the listener is unregistered if it is registered,
      and the notification is cancelled. */
  function OnConnection(fs: Fs, fault: set<Path>, action: PowerAction, registered: bool,
                        prefs: Prefs, powerConnected: bool): (r: Outcome)
    ensures |r.trace| >= 1 && r.trace[0] == Read(ResolvePath(fs.existing, Capacity))
    ensures r.completed <==> ReadAttr(fs, Capacity, fault).Some?
    ensures !r.completed ==> r.trace == [Read(ResolvePath(fs.existing, Capacity))] && r.registered == registered
    ensures r.completed ==> (r.registered <==> action == PowerConnected)
  {
    var read := [Read(ResolvePath(fs.existing, Capacity))];
    match ReadAttr(fs, Capacity, fault)
    case None => Outcome(read, registered, false)
    case Some(capacity) =>
      match action
      case PowerConnected =>
        Outcome(read
                + (if !registered then [RegisterBatteryListener] else [])
                + (if powerConnected then [Notify(ChargingStatus)] else []),
                true, true)
      case PowerDisconnected =>
        Outcome(read
                + (if ResetStatsEnabled(prefs) && UserLimit(prefs) == capacity then [ResetStats] else [])
                + (if registered then [UnregisterBatteryListener] else [])
                + [CancelNotice],
                false, true)
  }

  /** Counting `k` in a trace of at most four events, each from the front. */
  lemma CountSmall(trace: seq<Event>, k: Kind)
    requires |trace| <= 4
    ensures Count(trace, k) ==
      (if |trace| > 0 && IsKind(trace[0], k) then 1 else 0)
      + (if |trace| > 1 && IsKind(trace[1], k) then 1 else 0)
      + (if |trace| > 2 && IsKind(trace[2], k) then 1 else 0)
      + (if |trace| > 3 && IsKind(trace[3], k) then 1 else 0)
  {
    if |trace| > 0 {
      var t1 := trace[1..];
      if |t1| > 0 {
        var t2 := t1[1..];
        if |t2| > 0 {
          var t3 := t2[1..];
          if |t3| > 0 {
            assert t3[1..] == [];
          }
        }
      }
    }
  }

  /** Registration happens at most once per connection, only when the
      listener is not yet registered; unregistration only on disconnection
      of a registered listener; the statistics are reset exactly when the
      switch is on and the stored limit equals the capacity the file holds. */
  lemma ConnectionEffects(fs: Fs, fault: set<Path>, action: PowerAction, registered: bool,
                          prefs: Prefs, powerConnected: bool)
    ensures var r := OnConnection(fs, fault, action, registered, prefs, powerConnected);
      var capPath := ResolvePath(fs.existing, Capacity);
      && Count(r.trace, Registration) == (if r.completed && action == PowerConnected && !registered then 1 else 0)
      && Count(r.trace, Unregistration) == (if r.completed && action == PowerDisconnected && registered then 1 else 0)
      && (Count(r.trace, StatsReset) == 1 <==>
            r.completed && action == PowerDisconnected && ResetStatsEnabled(prefs)
            && capPath in fs.contents && UserLimit(prefs) as int == fs.contents[capPath])
      && Count(r.trace, StatsReset) <= 1
      && (Notify(ChargingStatus) in r.trace <==> r.completed && action == PowerConnected && powerConnected)
      && (CancelNotice in r.trace <==> r.completed && action == PowerDisconnected)
  {
    var r := OnConnection(fs, fault, action, registered, prefs, powerConnected);
    CountSmall(r.trace, Registration);
    CountSmall(r.trace, Unregistration);
    CountSmall(r.trace, StatsReset);
  }

  /** One delivered broadcast, with the sysfs state, garbled reads, power
      state and preferences at the moment it is handled. */
  datatype Broadcast = Broadcast(fs: Fs, fault: set<Path>, action: PowerAction, powerConnected: bool, prefs: Prefs)

  /** The broadcasts `bs` handled in order from listener flag `registered`:
      all their events and the flag at the end. A broadcast whose handler
      throws ends the run: the later ones are never handled. */
  function Replay(registered: bool, bs: seq<Broadcast>): (r: (seq<Event>, bool))
    decreases |bs|
  {
    if bs == [] then ([], registered)
    else
      var b := bs[0];
      var o := OnConnection(b.fs, b.fault, b.action, registered, b.prefs, b.powerConnected);
      if !o.completed then (o.trace, o.registered)
      else
        var rest := Replay(o.registered, bs[1..]);
        (o.trace + rest.0, rest.1)
  }

  /** A run whose first broadcast holds an unparsable capacity consists of
      that one capacity read: the exception ends the run with the flag as it
      was. */
  lemma ReplayStopsAtFailure(registered: bool, bs: seq<Broadcast>)
    requires bs != [] && ReadAttr(bs[0].fs, Capacity, bs[0].fault).None?
    ensures Replay(registered, bs) == ([Read(ResolvePath(bs[0].fs.existing, Capacity))], registered)
  {
  }

  function Flag(b: bool): int
  {
    if b then 1 else 0
  }

  /** Over any run of broadcasts the registrations and unregistrations
      balance against the flag: the flag before, plus the registrations,
      minus the unregistrations, is the flag after. Since the flag is 0 or
      1, the battery listener is never registered twice over. */
  lemma {:induction false} ListenerBalance(registered: bool, bs: seq<Broadcast>)
    ensures var r := Replay(registered, bs);
      Flag(registered) + Count(r.0, Registration) - Count(r.0, Unregistration) == Flag(r.1)
    decreases |bs|
  {
    if bs != [] {
      var b := bs[0];
      var o := OnConnection(b.fs, b.fault, b.action, registered, b.prefs, b.powerConnected);
      ConnectionEffects(b.fs, b.fault, b.action, registered, b.prefs, b.powerConnected);
      if o.completed {
        ListenerBalance(o.registered, bs[1..]);
        var rest := Replay(o.registered, bs[1..]);
        CountAppend(o.trace, rest.0, Registration);
        CountAppend(o.trace, rest.0, Unregistration);
      }
    }
  }

  /** Every prefix of a run keeps the balance too, so at no point are there
      two registrations without an unregistration between them. */
  lemma {:induction false} ListenerNeverDoubled(registered: bool, bs: seq<Broadcast>, k: nat)
    requires k <= |bs|
    ensures var r := Replay(registered, bs[..k]);
      0 <= Flag(registered) + Count(r.0, Registration) - Count(r.0, Unregistration) <= 1
  {
    ListenerBalance(registered, bs[..k]);
  }
}
