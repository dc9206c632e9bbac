/** The timer-triggered idle monitor (function_app.py, minecraft_monitor and
    the table-storage helpers around it): every three minutes it loads its
    counters, probes the server, reads the logs, and stops the container
    after enough empty checks. The collaborators' answers are inputs of a
    tick; the tick itself is a state transition. */
module Monitor {
  import opened Common
  import opened ModernStatus
  import opened Prober
  import opened LogActivity

  /** ISO-8601 text of a UTC instant. */
  type Timestamp = string

  const MinecraftPort: int := 25565
  const RunningStatus: string := "Running"
  /** Protocol failures without log activity tolerated before assuming empty. */
  const FailureLimit: int := 2
  /** Empty checks before a shutdown is attempted. */
  const EmptyCheckLimit: int := 2

  /** get_container_info's answer: the instance state and, when running, the IP. */
  datatype ContainerInfo = ContainerInfo(status: string, ipAddress: Option<string>)

  /** The `state/current` table entity; any property may be missing. */
  datatype StoredEntity = StoredEntity(
    lastPlayersSeen: Option<Timestamp>,
    emptyChecks: Option<int>,
    failures: Option<int>,
    lastCheckTime: Option<Timestamp>)

  /** The state dictionary a tick works on; `failures` is None when the
      dictionary has no `consecutive_failures` key. */
  datatype MonitorRecord = MonitorRecord(
    lastPlayersSeen: Option<Timestamp>,
    emptyChecks: int,
    failures: Option<int>,
    lastCheckTime: Option<Timestamp>)

  /** What the collaborators answer during one tick. `configured`: the
      subscription id is set and a table client was created. `readFailed`:
      get_entity raised although an entity may be stored (a network or
      service error). `probe`:
      get_minecraft_player_count. `recentActivity` and `logEstimate`: the
      5-minute log check and the log player estimate, both always asked.
      `finalActivity` and `stopSucceeded`: the 10-minute log check and
      stop_container, consulted only when a shutdown is due. */
  datatype TickEnv = TickEnv(
    configured: bool,
    readFailed: bool,
    container: Option<ContainerInfo>,
    probe: int,
    recentActivity: bool,
    logEstimate: int,
    finalActivity: bool,
    stopSucceeded: bool,
    now: Timestamp)

  /** The new state, whether stop_container was called, and the entity
      written to the table, if any. */
  datatype TickResult = TickResult(state: MonitorRecord, stopCalled: bool, written: Option<StoredEntity>)

  // ---------------------------------------------------------------------
  // Table storage.

  /** get_monitoring_state: a missing entity (the first run) gives a fresh
      state seen `now` and, unlike a stored one, no failure counter. */
  function LoadState(stored: Option<StoredEntity>, now: Timestamp): (r: MonitorRecord)
    ensures stored.None? ==> r == MonitorRecord(Some(now), 0, None, None)
    ensures stored.Some? ==>
      && r.failures.Some? && r.failures.value == stored.value.failures.GetOr(0)
      && r.emptyChecks == stored.value.emptyChecks.GetOr(0)
      && r.lastPlayersSeen == stored.value.lastPlayersSeen
      && r.lastCheckTime == stored.value.lastCheckTime
  {
    match stored
    case None => MonitorRecord(Some(now), 0, None, None)
    case Some(e) => MonitorRecord(e.lastPlayersSeen, e.emptyChecks.GetOr(0), Some(e.failures.GetOr(0)), e.lastCheckTime)
  }

  /** update_monitoring_state: every property is written, the failure
      counter defaulting to 0, the check time being `now`. */
  function Persist(r: MonitorRecord, now: Timestamp): (e: StoredEntity)
    ensures e.emptyChecks == Some(r.emptyChecks) && e.failures == Some(r.failures.GetOr(0))
    ensures e.lastPlayersSeen == r.lastPlayersSeen && e.lastCheckTime == Some(now)
  {
    StoredEntity(r.lastPlayersSeen, Some(r.emptyChecks), Some(r.failures.GetOr(0)), Some(now))
  }

  /** What is written is what is read back on the next tick, except that a
      missing failure counter comes back as 0 and the check time is the
      time of the write. */
  lemma PersistLoadRoundTrip(r: MonitorRecord, written: Timestamp, later: Timestamp)
    ensures LoadState(Some(Persist(r, written)), later) ==
      r.(failures := Some(r.failures.GetOr(0)), lastCheckTime := Some(written))
  {
  }

  // ---------------------------------------------------------------------
  // The tick decision.

  /** The tick goes past the guards: configured, a running container, an IP. */
  predicate Monitorable(env: TickEnv)
  {
    env.configured && env.container.Some? && env.container.value.status == RunningStatus
    && env.container.value.ipAddress.Some? && env.container.value.ipAddress.value != ""
  }

  /** The protocol failed, the logs show nothing, and the failure counter
      has not yet reached its limit: the tick only counts the failure. */
  predicate CountsFailureOnly(s: MonitorRecord, env: TickEnv)
  {
    env.probe == -1 && !env.recentActivity && env.logEstimate <= 0 && s.failures.GetOr(0) + 1 < FailureLimit
  }

  /** The player count the tick acts on: the protocol's answer when there is
      one; otherwise the log estimate when the logs show activity, and 0
      when they do not. */
  function EffectiveCount(env: TickEnv): (n: int)
    ensures env.probe >= -1 && env.logEstimate >= 0 ==> n >= 0
    ensures n > 0 ==> n == env.probe || (env.probe == -1 && n == env.logEstimate)
  {
    if env.probe != -1 then env.probe
    else if env.recentActivity || env.logEstimate > 0 then env.logEstimate
    else 0
  }

  /** The tick as a specification: the guards, then failure counting, then
      the empty-check debounce with a final log check before stopping. */
  function Decide(s: MonitorRecord, env: TickEnv): (r: TickResult)
    ensures !Monitorable(env) ==> r == TickResult(s, false, None)
    ensures Monitorable(env) ==> r.written == Some(Persist(r.state, env.now))
    ensures r.stopCalled ==>
      Monitorable(env) && EffectiveCount(env) <= 0 && s.emptyChecks + 1 >= EmptyCheckLimit && !env.finalActivity
    ensures r.state.emptyChecks in {0, s.emptyChecks, s.emptyChecks + 1}
    ensures r.state.lastPlayersSeen in {s.lastPlayersSeen, Some(env.now)}
  {
    if !Monitorable(env) then TickResult(s, false, None)
    else if CountsFailureOnly(s, env) then
      var next := s.(failures := Some(s.failures.GetOr(0) + 1));
      TickResult(next, false, Some(Persist(next, env.now)))
    else
      var base := s.(failures := Some(0));
      var empty := s.emptyChecks + 1;
      var next :=
        if EffectiveCount(env) > 0 then base.(lastPlayersSeen := Some(env.now), emptyChecks := 0)
        else if empty < EmptyCheckLimit then base.(emptyChecks := empty)
        else if env.finalActivity || env.stopSucceeded then base.(lastPlayersSeen := Some(env.now), emptyChecks := 0)
        else base.(emptyChecks := empty);
      var stop := EffectiveCount(env) <= 0 && empty >= EmptyCheckLimit && !env.finalActivity;
      TickResult(next, stop, Some(Persist(next, env.now)))
  }

  /** The dictionary minecraft_monitor updates during a tick. */
  class MonitorState {
    var lastPlayersSeen: Option<Timestamp>
    var emptyChecks: int
    var failures: Option<int>
    var lastCheckTime: Option<Timestamp>

    function Record(): MonitorRecord
      reads this
    {
      MonitorRecord(lastPlayersSeen, emptyChecks, failures, lastCheckTime)
    }

    /** get_monitoring_state. */
    constructor Load(stored: Option<StoredEntity>, now: Timestamp)
      ensures Record() == LoadState(stored, now)
    {
      var r := LoadState(stored, now);
      lastPlayersSeen := r.lastPlayersSeen;
      emptyChecks := r.emptyChecks;
      failures := r.failures;
      lastCheckTime := r.lastCheckTime;
    }

    /** One tick of minecraft_monitor from the container check on. */
    method Tick(env: TickEnv) returns (stopCalled: bool, written: Option<StoredEntity>)
      modifies this
      ensures Record() == Decide(old(Record()), env).state
      ensures stopCalled == Decide(old(Record()), env).stopCalled
      ensures written == Decide(old(Record()), env).written
    {
      stopCalled := false;
      written := None;
      if !Monitorable(env) {
        return;
      }
      var playerCount := env.probe;
      if playerCount == -1 {
        if env.recentActivity || env.logEstimate > 0 {
          playerCount := env.logEstimate;
          failures := Some(0);
        } else {
          var consecutiveFailures := failures.GetOr(0) + 1;
          failures := Some(consecutiveFailures);
          if consecutiveFailures >= FailureLimit {
            playerCount := 0;
            failures := Some(0);
          } else {
            written := Some(Persist(Record(), env.now));
            return;
          }
        }
      } else {
        failures := Some(0);
      }
      if playerCount > 0 {
        lastPlayersSeen := Some(env.now);
        emptyChecks := 0;
        failures := Some(0);
      } else {
        emptyChecks := emptyChecks + 1;
        if emptyChecks >= EmptyCheckLimit {
          if env.finalActivity {
            emptyChecks := 0;
            lastPlayersSeen := Some(env.now);
          } else {
            stopCalled := true;
            if env.stopSucceeded {
              emptyChecks := 0;
              failures := Some(0);
              lastPlayersSeen := Some(env.now);
            }
          }
        }
      }
      written := Some(Persist(Record(), env.now));
    }
  }

  /** The table holding the monitor's entity. */
  class MonitorTable {
    var entity: Option<StoredEntity>

    constructor (initial: Option<StoredEntity>)
      ensures entity == initial
    {
      entity := initial;
    }
  }

  /** What get_monitoring_state gets from get_entity: the stored entity, or
      nothing when the read fails. Its bare `except` cannot tell a failed
      read from a missing entity, so both start a fresh state. */
  function ReadEntity(stored: Option<StoredEntity>, env: TickEnv): Option<StoredEntity>
  {
    if env.readFailed then None else stored
  }

  /** The table after a whole tick: the written entity, or the old one. */
  function NextEntity(stored: Option<StoredEntity>, env: TickEnv): Option<StoredEntity>
  {
    if !env.configured then stored
    else
      var r := Decide(LoadState(ReadEntity(stored, env), env.now), env);
      if r.written.Some? then r.written else stored
  }

  /** minecraft_monitor: stop early when unconfigured, otherwise load the
      state, run the tick, and upsert what it writes. */
  method MinecraftMonitor(table: MonitorTable, env: TickEnv) returns (stopCalled: bool)
    modifies table
    ensures table.entity == NextEntity(old(table.entity), env)
    ensures stopCalled == (env.configured && Decide(LoadState(ReadEntity(old(table.entity), env), env.now), env).stopCalled)
  {
    if !env.configured {
      return false;
    }
    var read := if env.readFailed then None else table.entity;
    var state := new MonitorState.Load(read, env.now);
    var written;
    stopCalled, written := state.Tick(env);
    if written.Some? {
      table.entity := written;
    }
  }

  // ---------------------------------------------------------------------
  // Properties of a tick.

  /** An unconfigured function, a missing or stopped container, or a
      running one without an IP: nothing is probed, stopped or written. */
  lemma GuardsSkipTick(s: MonitorRecord, env: TickEnv)
    requires !env.configured || env.container.None? || env.container.value.status != RunningStatus
             || env.container.value.ipAddress.None? || env.container.value.ipAddress.value == ""
    ensures Decide(s, env) == TickResult(s, false, None)
  {
  }

  /** Every tick that gets past the guards writes its new state, and only
      those do. */
  lemma WritesIffMonitorable(s: MonitorRecord, env: TickEnv)
    ensures Decide(s, env).written.Some? <==> Monitorable(env)
    ensures Decide(s, env).written.Some? ==> Decide(s, env).written == Some(Persist(Decide(s, env).state, env.now))
  {
  }

  /** The first protocol failure without log activity only bumps the
      failure counter: no stop, the empty checks and the last-seen time
      unchanged. */
  lemma FailureCountedBelowLimit(s: MonitorRecord, env: TickEnv)
    requires Monitorable(env) && env.probe == -1 && !env.recentActivity && env.logEstimate <= 0
    requires s.failures.GetOr(0) + 1 < FailureLimit
    ensures var r := Decide(s, env);
      !r.stopCalled && r.state.failures == Some(s.failures.GetOr(0) + 1)
      && r.state.emptyChecks == s.emptyChecks && r.state.lastPlayersSeen == s.lastPlayersSeen
  {
  }

  /** At the failure limit the server is taken as empty: the counter is
      reset and the tick counts an empty check. */
  lemma FailureLimitCountsAsEmpty(s: MonitorRecord, env: TickEnv)
    requires Monitorable(env) && env.probe == -1 && !env.recentActivity && env.logEstimate <= 0
    requires s.failures.GetOr(0) + 1 >= FailureLimit
    ensures EffectiveCount(env) == 0
    ensures var r := Decide(s, env);
      r.state.failures == Some(0)
      && (s.emptyChecks + 1 < EmptyCheckLimit ==> r.state.emptyChecks == s.emptyChecks + 1 && !r.stopCalled)
  {
  }

  /** A state with no failure counter behaves exactly like one whose counter
      is 0. */
  lemma MissingFailuresIsZero(s: MonitorRecord, env: TickEnv)
    requires Monitorable(env)
    ensures Decide(s.(failures := None), env) == Decide(s.(failures := Some(0)), env)
  {
  }

  /** Log activity while the protocol fails resets the failure counter but
      counts the estimate, so activity without recognised names counts as
      an empty check. */
  lemma ActivityWithoutNamesCountsEmpty(s: MonitorRecord, env: TickEnv)
    requires Monitorable(env) && env.probe == -1 && env.recentActivity && env.logEstimate == 0
    ensures EffectiveCount(env) == 0
    ensures Decide(s, env).state.failures == Some(0)
    ensures s.emptyChecks + 1 < EmptyCheckLimit ==> Decide(s, env).state.emptyChecks == s.emptyChecks + 1
  {
  }

  /** The count acted on is never negative when the probe reports -1 or a
      count and the log estimate is a count, and is positive only when the
      protocol or the log estimate reported players. */
  lemma EffectiveCountBounds(env: TickEnv)
    ensures env.probe >= -1 && env.logEstimate >= 0 ==> EffectiveCount(env) >= 0
    ensures EffectiveCount(env) > 0 ==> EffectiveCount(env) == env.probe || (env.probe == -1 && EffectiveCount(env) == env.logEstimate)
  {
  }

  /** Players reset every counter and record the time they were seen. */
  lemma PlayersResetCounters(s: MonitorRecord, env: TickEnv)
    requires Monitorable(env) && EffectiveCount(env) > 0
    ensures Decide(s, env) == TickResult(
      s.(lastPlayersSeen := Some(env.now), emptyChecks := 0, failures := Some(0)), false,
      Some(Persist(s.(lastPlayersSeen := Some(env.now), emptyChecks := 0, failures := Some(0)), env.now)))
  {
  }

  /** When stop_container is called: exactly when the tick gets past the
      guards and the failure counting, sees no players, reaches the
      empty-check limit, and the final log check finds nothing. */
  lemma StopGate(s: MonitorRecord, env: TickEnv)
    ensures Decide(s, env).stopCalled <==>
      Monitorable(env) && !CountsFailureOnly(s, env) && EffectiveCount(env) <= 0
      && s.emptyChecks + 1 >= EmptyCheckLimit && !env.finalActivity
  {
  }

  /** A state whose previous tick was not empty (counter 0) never stops:
      a shutdown needs two empty checks in a row. */
  lemma NoStopOnFirstEmptyCheck(s: MonitorRecord, env: TickEnv)
    requires s.emptyChecks <= 0
    ensures !Decide(s, env).stopCalled
    ensures Monitorable(env) && !CountsFailureOnly(s, env) && EffectiveCount(env) <= 0 && s.emptyChecks == 0
            ==> Decide(s, env).state.emptyChecks == 1
  {
  }

  /** A due shutdown that the final log check vetoes resets the empty
      checks and counts as players seen now. */
  lemma FinalCheckPostpones(s: MonitorRecord, env: TickEnv)
    requires Monitorable(env) && !CountsFailureOnly(s, env) && EffectiveCount(env) <= 0
    requires s.emptyChecks + 1 >= EmptyCheckLimit && env.finalActivity
    ensures var r := Decide(s, env);
      !r.stopCalled && r.state.emptyChecks == 0 && r.state.lastPlayersSeen == Some(env.now)
  {
  }

  /** A successful stop resets both counters and the last-seen time. A
      failed one leaves the empty checks at the limit: when the protocol
      answers or the logs show activity, the next tick with the same answers
      calls stop again; when neither, the next tick only counts a protocol
      failure and the one after it calls stop again. */
  lemma StopOutcome(s: MonitorRecord, env: TickEnv)
    requires Decide(s, env).stopCalled
    ensures env.stopSucceeded ==> var r := Decide(s, env).state;
      r.emptyChecks == 0 && r.failures == Some(0) && r.lastPlayersSeen == Some(env.now)
    ensures !env.stopSucceeded ==> var r := Decide(s, env).state;
      r.emptyChecks == s.emptyChecks + 1 && r.lastPlayersSeen == s.lastPlayersSeen
    ensures !env.stopSucceeded && (env.probe != -1 || env.recentActivity || env.logEstimate > 0) ==>
      Decide(Decide(s, env).state, env).stopCalled
    ensures !env.stopSucceeded && env.probe == -1 && !env.recentActivity && env.logEstimate <= 0 ==>
      var next := Decide(Decide(s, env).state, env);
      !next.stopCalled && Decide(next.state, env).stopCalled
  {
  }

  /** Counters the monitor writes are in range: empty checks not negative,
      failures 0 or 1. Every tick keeps that. */
  predicate CountersInRange(s: MonitorRecord)
  {
    s.emptyChecks >= 0 && 0 <= s.failures.GetOr(0) < FailureLimit
  }

  lemma TickKeepsCountersInRange(s: MonitorRecord, env: TickEnv)
    requires CountersInRange(s)
    ensures CountersInRange(Decide(s, env).state)
  {
  }

  // Scenarios over several ticks. Every tick sees the same `env` (the
  // server and its logs do not change between timer runs) and starts from
  // the state the previous tick wrote: tick n + 1 is `Decide(tn.state, env)`.

  /** A zero-player server reachable by the protocol is stopped on the
      second tick: the first counts an empty check, the second calls stop. */
  lemma OnlineIdleStopsOnSecondTick(s: MonitorRecord, env: TickEnv)
    requires Monitorable(env) && env.probe == 0 && !env.finalActivity
    requires s.emptyChecks == 0
    ensures !Decide(s, env).stopCalled
    ensures Decide(Decide(s, env).state, env).stopCalled
  {
  }

  /** A server the protocol cannot reach and whose logs stay quiet is
      stopped only on the fourth tick: since every empty check also resets
      the failure counter, ticks alternate between counting a protocol
      failure and counting an empty check. */
  lemma OfflineIdleStopsOnFourthTick(s: MonitorRecord, env: TickEnv)
    requires Monitorable(env) && env.probe == -1 && !env.recentActivity && env.logEstimate <= 0
    requires !env.finalActivity
    requires s.emptyChecks == 0 && s.failures.GetOr(0) == 0
    ensures var t1 := Decide(s, env);
      var t2 := Decide(t1.state, env);
      var t3 := Decide(t2.state, env);
      && !t1.stopCalled && t1.state.failures == Some(1) && t1.state.emptyChecks == 0
      && !t2.stopCalled && t2.state.failures == Some(0) && t2.state.emptyChecks == 1
      && !t3.stopCalled && t3.state.failures == Some(1) && t3.state.emptyChecks == 1
      && Decide(t3.state, env).stopCalled
  {
  }

  // ---------------------------------------------------------------------
  // The tick wired to the prober and the log heuristics.

  /** Everything a tick observes. `host` is the UTF-8 text of the
      container's IP address as the prober sends it; the three log fetches
      are the 5-minute check, the estimate and the 10-minute final check. */
  datatype World = World(
    subscriptionSet: bool,
    tableClient: bool,
    stateReadFailed: bool,
    container: Option<ContainerInfo>,
    server: GameServer,
    host: seq<byte>,
    json: seq<byte> -> StatusJson,
    activityLogs: LogFetch,
    estimateLogs: LogFetch,
    finalLogs: LogFetch,
    stopSucceeded: bool,
    now: Timestamp)

  /** The collaborators' answers in a world. */
  function Observe(w: World): (env: TickEnv)
    ensures env.probe >= -1 && env.logEstimate >= 0
  {
    ProbeOrdering(w.host, MinecraftPort, w.server, w.json);
    TickEnv(w.subscriptionSet && w.tableClient, w.stateReadFailed, w.container,
            Probe(w.host, MinecraftPort, w.server, w.json).count,
            RecentActivity(w.activityLogs), PlayerEstimate(w.estimateLogs),
            RecentActivity(w.finalLogs), w.stopSucceeded, w.now)
  }

  /** An error while reading the logs for the final check is taken as
      activity, so it never lets the monitor stop the server. */
  lemma FinalLogErrorNeverStops(s: MonitorRecord, w: World)
    requires w.finalLogs == FetchFailed
    ensures !Decide(s, Observe(w)).stopCalled
  {
  }

  /** An error while reading the logs for the 5-minute check is taken as
      activity, so a protocol failure is never counted against the server. */
  lemma ActivityLogErrorResetsFailures(s: MonitorRecord, w: World)
    requires w.activityLogs == FetchFailed
    ensures Monitorable(Observe(w)) ==> Decide(s, Observe(w)).state.failures == Some(0)
  {
  }

  /** Once the failure counter has reached its limit, a failed probe with
      quiet logs is decided exactly as a probe that reported no players. */
  lemma FailureAtLimitIsNoPlayers(s: MonitorRecord, env: TickEnv)
    requires env.probe == -1 && !env.recentActivity && env.logEstimate == 0
    requires s.failures.GetOr(0) + 1 >= FailureLimit
    ensures Decide(s, env) == Decide(s, env.(probe := 0))
  {
  }

  /** With a closed port and an empty log, once the failure counter has
      reached its limit, a tick does exactly what it does for a reachable
      server reporting no players. */
  lemma ClosedPortIsNoPlayers(s: MonitorRecord, w: World)
    requires !w.server.portOpen && w.activityLogs == NoLogs && w.estimateLogs == NoLogs
    requires s.failures.GetOr(0) + 1 >= FailureLimit
    ensures Decide(s, Observe(w)) == Decide(s, Observe(w).(probe := 0))
  {
    var env := Observe(w);
    assert env.probe == -1 && !env.recentActivity && env.logEstimate == 0;
    FailureAtLimitIsNoPlayers(s, env);
  }

  /** Whatever the monitor reads in the world, the count it acts on is
      never negative. */
  lemma EffectiveCountObserved(w: World)
    ensures EffectiveCount(Observe(w)) >= 0
  {
    EffectiveCountBounds(Observe(w));
  }

  /** A failed read of the table is a first run: whatever entity is stored,
      the tick decides as it would with an empty table, and past the guards
      it overwrites the stored entity with what it would write there. */
  lemma ReadFailureStartsFresh(stored: Option<StoredEntity>, env: TickEnv)
    requires env.configured && env.readFailed
    ensures Monitorable(env) ==> NextEntity(stored, env) == NextEntity(None, env)
    ensures Decide(LoadState(ReadEntity(stored, env), env.now), env) == Decide(LoadState(None, env.now), env)
  {
  }

  /** A read error forgets a pending empty check: an entity holding one
      empty check would make an idle server's tick call stop_container, but
      after a failed read the tick only records the first empty check. */
  lemma ReadFailureDelaysStop(stored: StoredEntity, env: TickEnv)
    requires Monitorable(env) && env.probe == 0 && !env.finalActivity
    requires stored.emptyChecks == Some(1)
    ensures Decide(LoadState(ReadEntity(Some(stored), env.(readFailed := false)), env.now), env).stopCalled
    ensures !Decide(LoadState(ReadEntity(Some(stored), env.(readFailed := true)), env.now), env).stopCalled
    ensures NextEntity(Some(stored), env.(readFailed := true)).value.emptyChecks == Some(1)
  {
  }
}
