/** The logger of the logging library: the `LogLevel` enum, the per-thread
    global level, the per-module level overrides, the registry of live
    loggers, and the level gate that every logging macro goes through. The
    per-thread statics of `Logger` are the fields of one `LogRegistry` object
    (one per shard). */
module Log {
  import opened Wrappers
  import FormattingUtils

  /** K2_DEF_ENUM(LogLevel, ...): declaration order is the numeric order. */
  datatype LogLevel = NotSet | Verbose | Debug | Info | Warn | Error | Fatal

  /** The name table `LogLevelNames` generated for the enum. */
  const LogLevelNames: seq<string> := ["NotSet", "Verbose", "Debug", "Info", "Warn", "Error", "Fatal"]

  /** The level a thread logs at until it is configured otherwise. */
  const DefaultLogLevel: LogLevel := Info

  /** `to_integral(level)`: the enumerator's position in the declaration. */
  function Ordinal(l: LogLevel): (r: nat)
    ensures r < |LogLevelNames|
  {
    match l
    case NotSet => 0
    case Verbose => 1
    case Debug => 2
    case Info => 3
    case Warn => 4
    case Error => 5
    case Fatal => 6
  }

  /** The enumerator at a position of the declaration. */
  function FromOrdinal(i: nat): (l: LogLevel)
    requires i < |LogLevelNames|
    ensures Ordinal(l) == i
  {
    [NotSet, Verbose, Debug, Info, Warn, Error, Fatal][i]
  }

  /** `a >= b` on the enum class: comparison of the underlying integers. */
  predicate AtLeast(a: LogLevel, b: LogLevel) {
    Ordinal(a) >= Ordinal(b)
  }

  /** The levels are totally ordered NotSet < Verbose < ... < Fatal. */
  lemma LogLevelTotalOrder(a: LogLevel, b: LogLevel, c: LogLevel)
    ensures AtLeast(a, a)
    ensures AtLeast(a, b) && AtLeast(b, a) ==> a == b
    ensures AtLeast(a, b) && AtLeast(b, c) ==> AtLeast(a, c)
    ensures AtLeast(a, b) || AtLeast(b, a)
    ensures AtLeast(a, NotSet) && AtLeast(Fatal, a)
  {
    assert FromOrdinal(Ordinal(a)) == a;
    assert FromOrdinal(Ordinal(b)) == b;
  }

  /** No two enumerators share a name. */
  lemma LogLevelNamesDistinct()
    ensures FormattingUtils.DistinctNames(LogLevelNames)
  {
  }

  /** `LogLevelFromStr(s)`: the level named `s`, or the runtime error. */
  function LogLevelFromStr(s: string): (r: Result<LogLevel, string>)
    ensures r.Ok? ==> LogLevelNames[Ordinal(r.value)] == s
    ensures r.Err? <==> s !in LogLevelNames
    ensures r.Err? ==> r.error == FormattingUtils.UnsupportedValue(s, "LogLevel")
  {
    match FormattingUtils.EnumFromStr(LogLevelNames, "LogLevel", s)
    case Ok(i) => Ok(FromOrdinal(i))
    case Err(e) => Err(e)
  }

  /** Names are matched exactly: the upper-case spelling is refused, the
      declared spelling accepted. */
  lemma UpperCaseLevelRejected()
    ensures LogLevelFromStr("INFO") == Err(FormattingUtils.UnsupportedValue("INFO", "LogLevel"))
    ensures LogLevelFromStr("Info") == Ok(Info)
  {
    NotALevelName();
    LogLevelRoundTrip(Info);
  }

  /** "INFO" differs from every declared name, in length or in its second
      character. */
  lemma NotALevelName()
    ensures "INFO" !in LogLevelNames
  {
    forall i | 0 <= i < |LogLevelNames| ensures LogLevelNames[i] != "INFO" {
      if |LogLevelNames[i]| == 4 {
        assert LogLevelNames[i][1] != "INFO"[1];
      }
    }
  }

  /** `os << level`: the level's name in braces. */
  function LogLevelToString(l: LogLevel): string {
    FormattingUtils.EnumToString(LogLevelNames, Ordinal(l))
  }

  /** Printing a level and parsing the text between the braces gives the
      level back. */
  lemma LogLevelRoundTrip(l: LogLevel)
    ensures var p := LogLevelToString(l); LogLevelFromStr(p[1..|p| - 1]) == Ok(l)
  {
    LogLevelNamesDistinct();
    OrdinalRoundTrip(l);
    FormattingUtils.EnumToStringInjective(LogLevelNames, "LogLevel", Ordinal(l), Ordinal(l));
  }

  /** The ordinal determines the level. */
  lemma OrdinalRoundTrip(l: LogLevel)
    ensures FromOrdinal(Ordinal(l)) == l
  {
  }

  /** The per-thread statics of `Logger`: the global level, the per-module
      overrides (kept so that a logger created later still finds them) and
      the registry of live loggers by name. */
  class LogRegistry {
    var threadLocalLogLevel: LogLevel
    var moduleLevels: map<string, LogLevel>
    var moduleLoggers: map<string, Logger>

    /** Every registered logger is registered under its own name, so
        different names never share a logger. */
    ghost predicate Valid()
      reads this
    {
      forall n :: n in moduleLoggers ==> moduleLoggers[n].name == n
    }

    /** The statics at thread start: level Info, no overrides, no loggers. */
    constructor ()
      ensures Valid()
      ensures threadLocalLogLevel == DefaultLogLevel
      ensures moduleLevels == map[] && moduleLoggers == map[]
    {
      threadLocalLogLevel := DefaultLogLevel;
      moduleLevels := map[];
      moduleLoggers := map[];
    }
  }

  /** What a logging macro hands to the printer once the gate lets it pass. */
  datatype LogRecord = LogRecord(moduleName: string, level: LogLevel, message: string)

  class Logger {
    const name: string
    var moduleLevel: LogLevel

    /** `Logger(moduleName)`: registers itself under its name (which must not
        be taken) and adopts a pending per-module override. */
    constructor (moduleName: string, registry: LogRegistry)
      requires registry.Valid()
      requires moduleName !in registry.moduleLoggers
      modifies registry
      ensures name == moduleName
      ensures registry.Valid()
      ensures registry.moduleLoggers == old(registry.moduleLoggers)[moduleName := this]
      ensures registry.moduleLevels == old(registry.moduleLevels)
      ensures registry.threadLocalLogLevel == old(registry.threadLocalLogLevel)
      ensures moduleLevel == if moduleName in registry.moduleLevels
                             then registry.moduleLevels[moduleName] else NotSet
    {
      name := moduleName;
      moduleLevel := NotSet;
      new;
      registry.moduleLoggers := registry.moduleLoggers[name := this];
      if name in registry.moduleLevels {
        moduleLevel := registry.moduleLevels[name];
      }
    }

    /** `~Logger()`: erases its own name from the registry, nothing else. */
    method Destroy(registry: LogRegistry)
      requires registry.Valid()
      modifies registry
      ensures registry.Valid()
      ensures registry.moduleLoggers == old(registry.moduleLoggers) - {name}
      ensures registry.moduleLevels == old(registry.moduleLevels)
      ensures registry.threadLocalLogLevel == old(registry.threadLocalLogLevel)
    {
      registry.moduleLoggers := registry.moduleLoggers - {name};
    }

    /** `isEnabledFor(level)`: a module override above NotSet decides alone;
        otherwise the thread's global level decides. */
    function IsEnabledFor(level: LogLevel, registry: LogRegistry): (r: bool)
      reads this, registry
      ensures moduleLevel == NotSet ==> (r <==> AtLeast(level, registry.threadLocalLogLevel))
      ensures moduleLevel != NotSet ==> (r <==> AtLeast(level, moduleLevel))
    {
      if Ordinal(moduleLevel) > Ordinal(NotSet) then AtLeast(level, moduleLevel)
      else AtLeast(level, registry.threadLocalLogLevel)
    }

    /** `K2LOG_LEVEL_FMT(level, logger, ...)`: a record is produced exactly
        when the gate is open, tagged with the logger's name. */
    function Emit(level: LogLevel, registry: LogRegistry, message: string): (r: Option<LogRecord>)
      reads this, registry
      ensures r.Some? <==> IsEnabledFor(level, registry)
      ensures r.Some? ==> r.value == LogRecord(name, level, message)
    {
      if IsEnabledFor(level, registry) then Some(LogRecord(name, level, message)) else None
    }
  }

  /** The gate is monotone: a logger enabled for a level is enabled for
      every higher one. */
  lemma EnabledIsUpwardClosed(logger: Logger, registry: LogRegistry, l: LogLevel, m: LogLevel)
    requires logger.IsEnabledFor(l, registry)
    requires AtLeast(m, l)
    ensures logger.IsEnabledFor(m, registry)
  {
    LogLevelTotalOrder(m, l, logger.moduleLevel);
    LogLevelTotalOrder(m, l, registry.threadLocalLogLevel);
  }

  /** A set module level makes the global level irrelevant: two registries
      differing only in their global level gate the same way. */
  lemma ModuleLevelOverridesGlobal(logger: Logger, r1: LogRegistry, r2: LogRegistry, l: LogLevel)
    requires logger.moduleLevel != NotSet
    ensures logger.IsEnabledFor(l, r1) == logger.IsEnabledFor(l, r2)
  {
  }

  /** With module level NotSet, the gate opens exactly at the global level
      and above; NotSet itself never passes a global level above it. */
  lemma GlobalLevelGate(logger: Logger, registry: LogRegistry)
    requires logger.moduleLevel == NotSet
    ensures logger.IsEnabledFor(registry.threadLocalLogLevel, registry)
    ensures registry.threadLocalLogLevel != NotSet ==> !logger.IsEnabledFor(NotSet, registry)
  {
  }
}
