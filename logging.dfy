/**
 * Logging (core/src/logging.rs): six ordered levels with their names, a
 * logger that sends an entry to the log file and to the console when its
 * level reaches the threshold of each, and the rotation of an oversized log
 * file into numbered archives `smart-memory-mcp.<i>.log`.
 *
 * The clock's formatted time is a parameter, the console is the sequence of
 * lines written to standard error, and the log files are strings.
 */
module Logging {
  import opened Wrappers
  import opened Text

  /** `LogLevel`. */
  datatype LogLevel = Trace | Debug | Info | Warning | Error | Critical

  /** The derived `Ord`: declaration order. */
  function Rank(l: LogLevel): (r: nat)
    ensures r < 6
  {
    match l
    case Trace => 0
    case Debug => 1
    case Info => 2
    case Warning => 3
    case Error => 4
    case Critical => 5
  }

  /** `a >= b` on levels. */
  predicate AtLeast(a: LogLevel, b: LogLevel) {
    Rank(a) >= Rank(b)
  }

  /** The levels are totally ordered, Trace < Debug < Info < Warning < Error < Critical. */
  lemma {:induction false} LevelsTotallyOrdered(a: LogLevel, b: LogLevel, c: LogLevel)
    ensures Rank(Trace) < Rank(Debug) < Rank(Info) < Rank(Warning) < Rank(Error) < Rank(Critical)
    ensures AtLeast(a, b) || AtLeast(b, a)
    ensures AtLeast(a, b) && AtLeast(b, a) ==> a == b
    ensures AtLeast(a, b) && AtLeast(b, c) ==> AtLeast(a, c)
    ensures AtLeast(a, Trace) && AtLeast(Critical, a)
  {
  }

  /** `as_str`: the upper-case name. */
  function AsStr(l: LogLevel): (s: string)
    ensures |s| >= 4 && forall i :: 0 <= i < |s| ==> 'A' <= s[i] <= 'Z'
  {
    match l
    case Trace => "TRACE"
    case Debug => "DEBUG"
    case Info => "INFO"
    case Warning => "WARNING"
    case Error => "ERROR"
    case Critical => "CRITICAL"
  }

  /** `from_str`: the level whose name is the upper-cased string, if any. */
  function FromStr(s: string): (r: Option<LogLevel>)
    ensures r.Some? ==> AsStr(r.value) == Upper(s)
    ensures r.None? ==> forall l :: AsStr(l) != Upper(s)
  {
    var u := Upper(s);
    if u == "TRACE" then Some(Trace)
    else if u == "DEBUG" then Some(Debug)
    else if u == "INFO" then Some(Info)
    else if u == "WARNING" then Some(Warning)
    else if u == "ERROR" then Some(Error)
    else if u == "CRITICAL" then Some(Critical)
    else None
  }

  /** Distinct levels have distinct names. */
  lemma {:induction false} AsStrInjective(a: LogLevel, b: LogLevel)
    ensures AsStr(a) == AsStr(b) <==> a == b
  {
  }

  /** Upper-casing leaves an upper-case ASCII string as it is. */
  lemma {:induction false} UpperOfUpper(s: string)
    requires forall i :: 0 <= i < |s| ==> 'A' <= s[i] <= 'Z'
    ensures Upper(s) == s
  {
  }

  /** Upper-casing undoes lower-casing on an upper-case ASCII string. */
  lemma {:induction false} UpperOfLower(s: string)
    requires forall i :: 0 <= i < |s| ==> 'A' <= s[i] <= 'Z'
    ensures Upper(Lower(s)) == s
  {
    forall i | 0 <= i < |s| ensures Upper(Lower(s))[i] == s[i] {
      assert 'a' <= Lower(s)[i] <= 'z';
    }
  }

  /** Every level's name parses back to it. */
  lemma {:induction false} FromStrAsStr(l: LogLevel)
    ensures FromStr(AsStr(l)) == Some(l)
  {
    UpperOfUpper(AsStr(l));
  }

  /** Parsing ignores case: the lower-case name parses to the level too. */
  lemma {:induction false} FromStrLowerCase(l: LogLevel)
    ensures FromStr(Lower(AsStr(l))) == Some(l)
  {
    UpperOfLower(AsStr(l));
  }

  /** A string parses to a level exactly when it is that level's name up to case. */
  lemma {:induction false} FromStrExactly(s: string, l: LogLevel)
    ensures FromStr(s) == Some(l) <==> Upper(s) == AsStr(l)
  {
    if Upper(s) == AsStr(l) {
      match FromStr(s)
      case Some(k) => AsStrInjective(k, l);
      case None =>
    }
  }

  /** `LogEntry`; the JSON metadata is its serialised text. */
  datatype LogEntry = LogEntry(
    timestamp: string,
    level: LogLevel,
    moduleName: string,
    message: string,
    metadata: Option<string>)

  /**
   * `to_formatted_string`: `[time] [LEVEL] [module] message`, then
   * ` | metadata` when there is metadata. The local-time rendering of the
   * timestamp is the parameter time.
   */
  function Formatted(e: LogEntry, time: string): string {
    "[" + time + "] [" + AsStr(e.level) + "] [" + e.moduleName + "] " + e.message
    + (match e.metadata case Some(m) => " | " + m case None => "")
  }

  /** `max_file_size` of a new logger: 10 MiB. */
  const DEFAULT_MAX_FILE_SIZE: nat := 10 * 1024 * 1024

  /** `max_files` of a new logger. */
  const DEFAULT_MAX_FILES: nat := 5

  // ---------------------------------------------------------------------
  // Rotation of the numbered archives

  /**
   * The archives after the shifting loop of `rotate_logs` has handled the
   * indices from max - 1 down to lo: each handled index i was renamed to
   * i + 1, or removed when i + 1 reaches max. Indices 0 and from max on
   * are never touched, and nothing is touched when max <= 1.
   */
  ghost function ShiftFrom(a: map<nat, string>, max: nat, lo: nat): map<nat, string> {
    map j | j in a.Keys + (set k | k in a.Keys :: k + 1) && ShiftHas(a, max, lo, j) :: ShiftAt(a, max, lo, j)
  }

  /** Whether index j is present after the indices from lo up have been shifted. */
  ghost predicate ShiftHas(a: map<nat, string>, max: nat, lo: nat, j: nat) {
    if j == 0 || j >= max || j < lo then j in a
    else if j == lo then false
    else j - 1 in a
  }

  /** The file at index j after the indices from lo up have been shifted. */
  ghost function ShiftAt(a: map<nat, string>, max: nat, lo: nat, j: nat): string
    requires ShiftHas(a, max, lo, j)
  {
    if j == 0 || j >= max || j < lo then a[j] else a[j - 1]
  }

  /** Before any index is handled, the archives are as they were. */
  lemma {:induction false} ShiftFromStart(a: map<nat, string>, max: nat)
    ensures ShiftFrom(a, max, max) == a
  {
  }

  /** Handling index p (rename to p + 1, or remove at the limit) extends the shift by one index. */
  lemma {:induction false} ShiftStep(a: map<nat, string>, cur: map<nat, string>, next: map<nat, string>, max: nat, p: nat)
    requires 1 <= p < max
    requires cur == ShiftFrom(a, max, p + 1)
    requires next == if p !in cur then cur
                     else if p + 1 >= max then cur - {p}
                     else cur[p + 1 := cur[p]] - {p}
    ensures next == ShiftFrom(a, max, p)
  {
    var sh := ShiftFrom(a, max, p);
    forall j ensures j in next <==> j in sh {
      if j == p + 1 && p + 1 < max {
        assert j in sh <==> p in a;
      }
    }
    forall j | j in next ensures next[j] == sh[j] {
    }
  }

  /** Once every index from max - 1 down to 1 is handled, each archive moved up by one. */
  lemma {:induction false} ShiftedArchives(a: map<nat, string>, max: nat, j: nat)
    requires max >= 2
    ensures 1 <= j < max - 1 && j in a ==> j + 1 in ShiftFrom(a, max, 1) && ShiftFrom(a, max, 1)[j + 1] == a[j]
    ensures 1 <= j < max && (j == 1 || j - 1 !in a) ==> j !in ShiftFrom(a, max, 1)
    ensures (j == 0 || j >= max) ==> (j in ShiftFrom(a, max, 1) <==> j in a)
  {
    var sh := ShiftFrom(a, max, 1);
    if 1 <= j < max - 1 && j in a {
      assert j + 1 in a.Keys + (set k | k in a.Keys :: k + 1);
    }
    if j == 0 || j >= max {
      assert j in a ==> j in a.Keys + (set k | k in a.Keys :: k + 1);
    }
  }

  /**
   * The shifting loop of `rotate_logs`: from index max - 1 down to 1, an
   * archive present at i moves to i + 1, or is removed when i + 1 reaches max.
   */
  method ShiftArchives(archives: map<nat, string>, max: nat) returns (dir: map<nat, string>)
    ensures dir == ShiftFrom(archives, max, 1)
  {
    dir := archives;
    var count := if max >= 1 then max - 1 else 0;
    ShiftFromStart(archives, max);
    for t := 0 to count
      invariant dir == ShiftFrom(archives, max, max - t)
    {
      var i := max - 1 - t;
      ghost var cur := dir;
      if i in dir {
        if i + 1 >= max {
          dir := dir - {i};
        } else {
          dir := dir[i + 1 := dir[i]] - {i};
        }
      }
      ShiftStep(archives, cur, dir, max, i);
    }
    if max == 0 {
      assert ShiftFrom(archives, 0, 1) == ShiftFrom(archives, 0, 0);
    }
  }

  /** All archives of a rotated directory stay within 1 .. max - 1 when they started there. */
  lemma {:induction false} RotationKeepsIndicesBelowMax(a: map<nat, string>, max: nat, current: string)
    requires max >= 2 && forall k :: k in a ==> 1 <= k < max
    ensures var rotated := ShiftFrom(a, max, 1)[1 := current];
            forall k :: k in rotated ==> 1 <= k < max
  {
    forall k | k in ShiftFrom(a, max, 1)
      ensures 1 <= k < max
    {
      if k == 0 || k >= max {
        ShiftedArchives(a, max, k);
      }
    }
  }

  // ---------------------------------------------------------------------
  // The lock around the global logger

  /**
   * The `Mutex` around the global `LOGGER`, as the thread running `init`
   * or `rotate_logs` sees it: free, or held by that thread.
   */
  datatype Lock = Free | Held

  /**
   * `Mutex::lock` on that thread. std's `Mutex` is not re-entrant: a
   * thread locking a mutex it already holds does not return (it blocks or
   * panics), modelled as None.
   */
  function Acquire(l: Lock): (r: Option<Lock>)
    ensures r.Some? <==> l == Free
    ensures r.Some? ==> r.value == Held
  {
    if l == Free then Some(Held) else None
  }

  /**
   * The lock traffic of `init` and of `rotate_logs`: take the lock to
   * install the new file, keep the guard (as written) or drop it first
   * (dropGuard), then call `log`, which takes the lock and releases it.
   * The result is the lock state when the function returns, or None when
   * it never returns.
   */
  function InstallThenLog(l: Lock, dropGuard: bool): Option<Lock> {
    match Acquire(l)
    case None => None
    case Some(held) =>
      var beforeLog := if dropGuard then Free else held;
      match Acquire(beforeLog)
      case None => None
      case Some(_) => Some(Free)
  }

  /**
   * As written, `init` and `rotate_logs` still hold the guard `logger`
   * when they call `log`, so neither returns, whatever the lock's state.
   */
  lemma {:induction false} GuardHeldNeverReturns(l: Lock)
    ensures InstallThenLog(l, false) == None
  {
    assert Acquire(l).Some? ==> Acquire(Acquire(l).value) == None;
  }

  /**
   * Dropping the guard before logging, as evidently intended, returns
   * with the lock free whenever the lock was free on entry.
   */
  lemma {:induction false} GuardDroppedReturns(l: Lock)
    ensures InstallThenLog(l, true).Some? <==> l == Free
    ensures InstallThenLog(l, true).Some? ==> InstallThenLog(l, true).value == Free
  {
    assert Acquire(Free) == Some(Held);
  }

  /** The message `init` logs once the logger is set up. */
  function InitMessage(consoleLevel: LogLevel, fileLevel: LogLevel): string {
    "Logging initialized. Console level: " + AsStr(consoleLevel) + ", File level: " + AsStr(fileLevel)
  }

  // ---------------------------------------------------------------------
  // The logger

  /**
   * `Logger`. The open log file `smart-memory-mcp.log` is held as its
   * contents (None while no file is open), the archives by index, and the
   * console as the lines written to standard error.
   */
  class Logger {
    var logFile: Option<string>
    var archives: map<nat, string>
    var console: seq<string>
    var consoleLevel: LogLevel
    var fileLevel: LogLevel
    var maxFileSize: nat
    var maxFiles: nat

    /** `Logger::new`: no file, console Info, file Debug, 10 MiB, 5 files. */
    constructor ()
      ensures logFile == None && archives == map[] && console == []
      ensures consoleLevel == Info && fileLevel == Debug
      ensures maxFileSize == DEFAULT_MAX_FILE_SIZE && maxFiles == DEFAULT_MAX_FILES
    {
      logFile := None;
      archives := map[];
      console := [];
      consoleLevel := Info;
      fileLevel := Debug;
      maxFileSize := DEFAULT_MAX_FILE_SIZE;
      maxFiles := DEFAULT_MAX_FILES;
    }

    /**
     * `Logger::init` with the lock released before logging (see
     * InstallThenLog): opens the log file for appending (creating it empty
     * when existing is None, keeping its contents otherwise), sets both
     * thresholds, and logs an Info entry announcing them, which reaches
     * each destination whose threshold Info meets.
     */
    method Init(existing: Option<string>, consoleLevel: LogLevel, fileLevel: LogLevel, now: string, time: string)
      modifies this
      ensures var line := Formatted(LogEntry(now, Info, "logging", InitMessage(consoleLevel, fileLevel), None), time);
              var start := if existing.Some? then existing.value else "";
              && logFile == Some(if AtLeast(Info, fileLevel) then start + line + "\n" else start)
              && console == if AtLeast(Info, consoleLevel) then old(console) + [line] else old(console)
      ensures this.consoleLevel == consoleLevel && this.fileLevel == fileLevel
      ensures archives == old(archives)
      ensures maxFileSize == old(maxFileSize) && maxFiles == old(maxFiles)
    {
      logFile := Some(if existing.Some? then existing.value else "");
      this.consoleLevel := consoleLevel;
      this.fileLevel := fileLevel;
      WriteToLog(LogEntry(now, Info, "logging", InitMessage(consoleLevel, fileLevel), None), time);
    }

    /**
     * `write_to_log`: the formatted entry is appended as a line to the open
     * file when its level reaches the file threshold, and written to the
     * console when it reaches the console threshold.
     */
    method WriteToLog(e: LogEntry, time: string)
      modifies this
      ensures logFile == if old(logFile).Some? && AtLeast(e.level, fileLevel)
                         then Some(old(logFile).value + Formatted(e, time) + "\n")
                         else old(logFile)
      ensures console == if AtLeast(e.level, consoleLevel) then old(console) + [Formatted(e, time)] else old(console)
      ensures archives == old(archives) && consoleLevel == old(consoleLevel) && fileLevel == old(fileLevel)
      ensures maxFileSize == old(maxFileSize) && maxFiles == old(maxFiles)
    {
      if logFile.Some? {
        if AtLeast(e.level, fileLevel) {
          logFile := Some(logFile.value + Formatted(e, time) + "\n");
        }
      }
      if AtLeast(e.level, consoleLevel) {
        console := console + [Formatted(e, time)];
      }
    }

    /**
     * `log`: builds the entry at the given clock reading and writes it.
     * The file receives exactly the entries at or above the file level,
     * the console those at or above the console level.
     */
    method Log(level: LogLevel, moduleName: string, message: string, metadata: Option<string>, now: string, time: string)
      modifies this
      ensures var line := Formatted(LogEntry(now, level, moduleName, message, metadata), time);
              && (old(logFile).Some? ==> logFile.Some? && (AtLeast(level, fileLevel) <==> logFile.value == old(logFile).value + line + "\n"))
              && (old(logFile).None? ==> logFile.None?)
              && (AtLeast(level, consoleLevel) <==> console == old(console) + [line])
              && (!AtLeast(level, consoleLevel) ==> console == old(console))
      ensures var line := Formatted(LogEntry(now, level, moduleName, message, metadata), time);
              && logFile == (if old(logFile).Some? && AtLeast(level, fileLevel) then Some(old(logFile).value + line + "\n") else old(logFile))
              && console == (if AtLeast(level, consoleLevel) then old(console) + [line] else old(console))
      ensures archives == old(archives) && consoleLevel == old(consoleLevel) && fileLevel == old(fileLevel)
      ensures maxFileSize == old(maxFileSize) && maxFiles == old(maxFiles)
    {
      var e := LogEntry(now, level, moduleName, message, metadata);
      WriteToLog(e, time);
      var line := Formatted(e, time);
      assert |old(console) + [line]| == |old(console)| + 1;
      if old(logFile).Some? {
        assert |old(logFile).value + line + "\n"| > |old(logFile).value|;
      }
    }

    /**
     * `rotate_logs` with the lock released before logging (see
     * InstallThenLog): once the open log exceeds `max_file_size` bytes, the
     * archives are shifted up from index max_files - 1 down to 1 (the one
     * reaching max_files is removed), the log becomes archive 1, and a new
     * empty log is opened.
     */
    method RotateLogs()
      modifies this
      ensures old(logFile).Some? && Utf8Length(old(logFile).value) > maxFileSize ==>
                && logFile == Some("")
                && archives == ShiftFrom(old(archives), maxFiles, 1)[1 := old(logFile).value]
      ensures !(old(logFile).Some? && Utf8Length(old(logFile).value) > maxFileSize) ==>
                logFile == old(logFile) && archives == old(archives)
      ensures console == old(console) && consoleLevel == old(consoleLevel) && fileLevel == old(fileLevel)
      ensures maxFileSize == old(maxFileSize) && maxFiles == old(maxFiles)
    {
      if logFile.Some? && Utf8Length(logFile.value) > maxFileSize {
        var dir := ShiftArchives(archives, maxFiles);
        archives := dir[1 := logFile.value];
        logFile := Some("");
      }
    }
  }
}
