/**
 * Crash and recovery bookkeeping (core/src/crash_recovery.rs): counters of
 * consecutive crashes and recovery attempts, a safe-mode flag raised after
 * three crashes, the paths the server was started with, and the recovery
 * procedure that checks (and "repairs") the database file. The state file
 * recovery.json is an opaque effect that may fail, the clock is a
 * parameter, and the file system is a map from path to file size.
 */
module CrashRecovery {
  import opened Wrappers

  /** An `io::Error`. */
  datatype IoError = IoError(message: string)

  /** `RecoveryState`. */
  datatype RecoveryState = RecoveryState(
    pid: Option<nat>,
    port: Option<nat>,
    dbPath: Option<string>,
    configPath: Option<string>,
    lastUpdate: nat,
    crashCount: nat,
    lastCrash: Option<nat>,
    lastCrashReason: Option<string>,
    recoveryAttempts: nat,
    safeMode: bool)

  /** `RecoveryState::default`, at clock reading now. */
  function DefaultState(now: nat): (s: RecoveryState)
    ensures s.pid.None? && s.port.None? && s.dbPath.None? && s.configPath.None?
    ensures s.lastUpdate == now && s.lastCrash.None? && s.lastCrashReason.None?
    ensures s.crashCount == 0 && s.recoveryAttempts == 0 && !s.safeMode
  {
    RecoveryState(None, None, None, None, now, 0, None, None, 0, false)
  }

  /** The number of consecutive crashes from which on safe mode is enabled. */
  const SAFE_MODE_CRASHES: nat := 3

  /** The default limit on recovery attempts. */
  const DEFAULT_MAX_RECOVERY_ATTEMPTS: nat := 3

  /**
   * The state after `record_crash(reason)` at clock reading now: one more
   * crash, its time and reason recorded, safe mode enabled from the third
   * crash on and never cleared here.
   */
  function Crashed(s: RecoveryState, reason: string, now: nat): (t: RecoveryState)
    ensures t.crashCount == s.crashCount + 1
    ensures t.lastCrash == Some(now) && t.lastCrashReason == Some(reason)
    ensures t.safeMode <==> s.safeMode || t.crashCount >= SAFE_MODE_CRASHES
    ensures t.recoveryAttempts == s.recoveryAttempts
    ensures t.pid == s.pid && t.port == s.port && t.dbPath == s.dbPath && t.configPath == s.configPath
    ensures t.lastUpdate == s.lastUpdate
  {
    var counted := s.(crashCount := s.crashCount + 1, lastCrash := Some(now), lastCrashReason := Some(reason));
    if counted.crashCount >= SAFE_MODE_CRASHES then counted.(safeMode := true) else counted
  }

  /** The state after `reset_crash_count`. */
  function Reset(s: RecoveryState): (t: RecoveryState)
    ensures t.crashCount == 0 && t.recoveryAttempts == 0 && !t.safeMode
    ensures t.pid == s.pid && t.port == s.port && t.dbPath == s.dbPath && t.configPath == s.configPath
    ensures t.lastCrash == s.lastCrash && t.lastCrashReason == s.lastCrashReason && t.lastUpdate == s.lastUpdate
  {
    s.(crashCount := 0, recoveryAttempts := 0, safeMode := false)
  }

  /** A run of crashes, one per reason, all at clock reading now. */
  function CrashedAll(s: RecoveryState, reasons: seq<string>, now: nat): RecoveryState
    decreases |reasons|
  {
    if reasons == [] then s
    else Crashed(CrashedAll(s, reasons[..|reasons| - 1], now), reasons[|reasons| - 1], now)
  }

  /**
   * After n crashes the count has gone up by n, and safe mode is on exactly
   * when it was on before or the count has reached three.
   */
  lemma {:induction false} CrashedAllCounts(s: RecoveryState, reasons: seq<string>, now: nat)
    ensures CrashedAll(s, reasons, now).crashCount == s.crashCount + |reasons|
    ensures CrashedAll(s, reasons, now).safeMode <==>
              s.safeMode || (reasons != [] && s.crashCount + |reasons| >= SAFE_MODE_CRASHES)
    ensures CrashedAll(s, reasons, now).recoveryAttempts == s.recoveryAttempts
    decreases |reasons|
  {
    if reasons != [] {
      CrashedAllCounts(s, reasons[..|reasons| - 1], now);
    }
  }

  /**
   * From a fresh state, one crash leaves safe mode off, three crashes turn
   * it on, and a reset turns it off again with the counters at zero.
   */
  lemma {:induction false} ThreeCrashesThenReset(now: nat, a: string, b: string, c: string)
    ensures CrashedAll(DefaultState(now), [a], now).crashCount == 1
    ensures !CrashedAll(DefaultState(now), [a], now).safeMode
    ensures CrashedAll(DefaultState(now), [a, b, c], now).crashCount == 3
    ensures CrashedAll(DefaultState(now), [a, b, c], now).safeMode
    ensures Reset(CrashedAll(DefaultState(now), [a, b, c], now)).crashCount == 0
    ensures !Reset(CrashedAll(DefaultState(now), [a, b, c], now)).safeMode
  {
    CrashedAllCounts(DefaultState(now), [a], now);
    CrashedAllCounts(DefaultState(now), [a, b, c], now);
  }

  /**
   * `check_database_integrity` over the file system: false when no database
   * path is set, the file is missing or it is empty; a failure to read the
   * file's metadata is an error.
   */
  function IntegrityCheck(dbPath: Option<string>, files: map<string, nat>, metadataFault: Option<IoError>)
    : (r: Result<bool, IoError>)
    ensures r == Ok(true) <==> dbPath.Some? && dbPath.value in files && metadataFault.None? && files[dbPath.value] > 0
    ensures r.Err? <==> dbPath.Some? && dbPath.value in files && metadataFault.Some?
  {
    match dbPath
    case None => Ok(false)
    case Some(path) =>
      if path !in files then Ok(false)
      else if metadataFault.Some? then Err(metadataFault.value)
      else if files[path] == 0 then Ok(false)
      else Ok(true)
  }

  /** `repair_database`: succeeds exactly when a database path is set and the file exists. */
  function Repair(dbPath: Option<string>, files: map<string, nat>): (repaired: bool)
    ensures repaired <==> dbPath.Some? && dbPath.value in files
  {
    match dbPath
    case None => false
    case Some(path) => path in files
  }

  /** `CrashRecoveryManager`. */
  class CrashRecoveryManager {
    var state: RecoveryState
    var maxRecoveryAttempts: nat

    /**
     * `CrashRecoveryManager::new` once the state file has been read: the
     * stored state when there was one that parsed, else the default state;
     * at most three recovery attempts.
     */
    constructor (stored: Option<RecoveryState>, now: nat)
      ensures stored.Some? ==> state == stored.value
      ensures stored.None? ==> state == DefaultState(now)
      ensures maxRecoveryAttempts == DEFAULT_MAX_RECOVERY_ATTEMPTS
    {
      state := if stored.Some? then stored.value else DefaultState(now);
      maxRecoveryAttempts := DEFAULT_MAX_RECOVERY_ATTEMPTS;
    }

    /** `set_max_recovery_attempts`. */
    method SetMaxRecoveryAttempts(maxAttempts: nat)
      modifies this
      ensures maxRecoveryAttempts == maxAttempts && state == old(state)
    {
      maxRecoveryAttempts := maxAttempts;
    }

    /**
     * `set_paths`: record the database path, the configuration path and the
     * port, then save; the state changes whether or not saving fails.
     */
    method SetPaths(dbPath: string, configPath: string, port: nat, saveFault: Option<IoError>)
      returns (r: Result<(), IoError>)
      modifies this
      ensures state == old(state).(dbPath := Some(dbPath), configPath := Some(configPath), port := Some(port))
      ensures GetDbPath() == Some(dbPath) && GetConfigPath() == Some(configPath) && GetPort() == Some(port)
      ensures maxRecoveryAttempts == old(maxRecoveryAttempts)
      ensures r.Ok? <==> saveFault.None?
    {
      state := state.(dbPath := Some(dbPath));
      state := state.(configPath := Some(configPath));
      state := state.(port := Some(port));
      r := SaveState(saveFault);
    }

    /** `update_pid`: record the process id and the time, then save. */
    method UpdatePid(pid: nat, now: nat, saveFault: Option<IoError>) returns (r: Result<(), IoError>)
      modifies this
      ensures state == old(state).(pid := Some(pid), lastUpdate := now)
      ensures GetPid() == Some(pid)
      ensures maxRecoveryAttempts == old(maxRecoveryAttempts)
      ensures r.Ok? <==> saveFault.None?
    {
      state := state.(pid := Some(pid));
      state := state.(lastUpdate := now);
      r := SaveState(saveFault);
    }

    /** `record_crash`. */
    method RecordCrash(reason: string, now: nat, saveFault: Option<IoError>) returns (r: Result<(), IoError>)
      modifies this
      ensures state == Crashed(old(state), reason, now)
      ensures maxRecoveryAttempts == old(maxRecoveryAttempts)
      ensures r.Ok? <==> saveFault.None?
    {
      state := state.(crashCount := state.crashCount + 1);
      state := state.(lastCrash := Some(now));
      state := state.(lastCrashReason := Some(reason));
      if state.crashCount >= SAFE_MODE_CRASHES {
        state := state.(safeMode := true);
      }
      r := SaveState(saveFault);
    }

    /** `check_previous_crash`: the state, when at least one crash is recorded. */
    function CheckPreviousCrash(): (r: Option<RecoveryState>)
      reads this
      ensures r.Some? <==> state.crashCount > 0
      ensures r.Some? ==> r.value == state
    {
      if state.crashCount > 0 then Some(state) else None
    }

    /** `record_recovery_attempt`. */
    method RecordRecoveryAttempt(saveFault: Option<IoError>) returns (r: Result<(), IoError>)
      modifies this
      ensures state == old(state).(recoveryAttempts := old(state).recoveryAttempts + 1)
      ensures maxRecoveryAttempts == old(maxRecoveryAttempts)
      ensures r.Ok? <==> saveFault.None?
    {
      state := state.(recoveryAttempts := state.recoveryAttempts + 1);
      r := SaveState(saveFault);
    }

    /** `reset_crash_count`. */
    method ResetCrashCount(saveFault: Option<IoError>) returns (r: Result<(), IoError>)
      modifies this
      ensures state == Reset(old(state))
      ensures !IsSafeModeEnabled() && GetCrashCount() == 0 && ShouldAttemptRecovery() == (maxRecoveryAttempts > 0)
      ensures maxRecoveryAttempts == old(maxRecoveryAttempts)
      ensures r.Ok? <==> saveFault.None?
    {
      state := state.(crashCount := 0);
      state := state.(recoveryAttempts := 0);
      state := state.(safeMode := false);
      r := SaveState(saveFault);
    }

    /**
     * `perform_recovery`. With no attempts left it fails and changes
     * nothing. Otherwise it counts the attempt first (saving the state),
     * then checks the database and, if the check fails, repairs it.
     */
    method PerformRecovery(files: map<string, nat>, saveFault: Option<IoError>, metadataFault: Option<IoError>)
      returns (r: Result<(), IoError>)
      modifies this
      ensures maxRecoveryAttempts == old(maxRecoveryAttempts)
      ensures !old(ShouldAttemptRecovery()) ==> r.Err? && state == old(state)
      ensures old(ShouldAttemptRecovery()) ==>
                state == old(state).(recoveryAttempts := old(state).recoveryAttempts + 1)
      ensures state.recoveryAttempts <= old(state.recoveryAttempts) + 1
      ensures old(state.recoveryAttempts) <= maxRecoveryAttempts ==> state.recoveryAttempts <= maxRecoveryAttempts
      ensures r.Ok? <==>
                && old(ShouldAttemptRecovery())
                && saveFault.None?
                && state.dbPath.Some? && state.dbPath.value in files
                && metadataFault.None?
    {
      if !ShouldAttemptRecovery() {
        return Err(IoError("Too many recovery attempts"));
      }
      var saved := RecordRecoveryAttempt(saveFault);
      if saved.Err? {
        return Err(saved.error);
      }
      var healthy := IntegrityCheck(state.dbPath, files, metadataFault);
      if healthy.Err? {
        return Err(healthy.error);
      }
      if !healthy.value {
        if !Repair(state.dbPath, files) {
          return Err(IoError("Database repair failed"));
        }
      }
      r := Ok(());
    }

    /**
     * `is_recovery_needed`: a recorded server process that is no longer
     * running; whether a process runs is an input.
     */
    function IsRecoveryNeeded(isRunning: nat -> bool): (needed: bool)
      reads this
      ensures needed <==> state.pid.Some? && !isRunning(state.pid.value)
    {
      match state.pid
      case Some(pid) => !isRunning(pid)
      case None => false
    }

    /** `is_safe_mode_enabled`. */
    function IsSafeModeEnabled(): bool
      reads this
    {
      state.safeMode
    }

    /** `should_attempt_recovery`: attempts remain. */
    function ShouldAttemptRecovery(): (yes: bool)
      reads this
      ensures yes <==> state.recoveryAttempts < maxRecoveryAttempts
    {
      state.recoveryAttempts < maxRecoveryAttempts
    }

    function GetDbPath(): Option<string>
      reads this
    {
      state.dbPath
    }

    function GetConfigPath(): Option<string>
      reads this
    {
      state.configPath
    }

    function GetPort(): Option<nat>
      reads this
    {
      state.port
    }

    function GetPid(): Option<nat>
      reads this
    {
      state.pid
    }

    function GetCrashCount(): nat
      reads this
    {
      state.crashCount
    }

    function GetRecoveryAttempts(): nat
      reads this
    {
      state.recoveryAttempts
    }

    /**
     * `save_state`: writing recovery.json, an effect outside the model
     * that fails with the given error, if any.
     */
    method SaveState(saveFault: Option<IoError>) returns (r: Result<(), IoError>)
      ensures saveFault.None? ==> r == Ok(())
      ensures saveFault.Some? ==> r == Err(saveFault.value)
    {
      r := if saveFault.Some? then Err(saveFault.value) else Ok(());
    }
  }
}
