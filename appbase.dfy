/** The application bootstrap `App::start` / `App::stop`: log-level set-up
    from the `--log_level` option, the TCP option check and builder choice,
    the at-exit hooks, the construction and start phases, and the exit
    request. Each cross-shard fan-out is one step whose outcome (every shard
    succeeded or not) comes from the environment; the logging statics are
    those of one shard. */
module Appbase {
  import opened Wrappers
  import Log

  // ---------------------------------------------------------------------------
  // Sequence helpers
  // ---------------------------------------------------------------------------

  /** The number of leading elements that pass `ok`: the position of the
      first failure, or the length when nothing fails. */
  function FirstFailing<X>(xs: seq<X>, ok: X -> bool): (k: nat)
    ensures k <= |xs|
    ensures forall i :: 0 <= i < k ==> ok(xs[i])
    ensures k < |xs| ==> !ok(xs[k])
    decreases |xs|
  {
    if xs == [] then 0 else if !ok(xs[0]) then 0 else 1 + FirstFailing(xs[1..], ok)
  }

  /** The first failure is at `i` when everything before `i` passes and
      `i` itself fails. */
  lemma FirstFailingAt<X>(xs: seq<X>, ok: X -> bool, i: nat)
    requires i < |xs| && !ok(xs[i])
    requires forall j :: 0 <= j < i ==> ok(xs[j])
    ensures FirstFailing(xs, ok) == i
  {
  }

  /** A walk whose first failure is at `i` visits `xs[..i + 1]`. */
  lemma StopsAt<X>(xs: seq<X>, ok: X -> bool, i: nat)
    requires i < |xs| && !ok(xs[i])
    requires forall j :: 0 <= j < i ==> ok(xs[j])
    ensures FirstFailing(xs, ok) == i
    ensures RunPrefix(xs, ok) == xs[..i + 1]
  {
    FirstFailingAt(xs, ok, i);
  }

  /** A walk with no failure visits all of `xs`. */
  lemma RunsThrough<X>(xs: seq<X>, ok: X -> bool)
    requires forall j :: 0 <= j < |xs| ==> ok(xs[j])
    ensures FirstFailing(xs, ok) == |xs|
    ensures RunPrefix(xs, ok) == xs[..|xs|] == xs
  {
  }

  /** What a sequential walk that stops at the first failure visits: every
      element up to and including the failing one. */
  function RunPrefix<X>(xs: seq<X>, ok: X -> bool): (r: seq<X>)
    ensures |r| <= |xs| && r == xs[..|r|]
    ensures forall i :: 0 <= i < |r| - 1 ==> ok(r[i])
    ensures |r| < |xs| ==> r != [] && !ok(r[|r| - 1])
    ensures (forall i :: 0 <= i < |xs| ==> ok(xs[i])) <==> r == xs && (r == [] || ok(r[|r| - 1]))
  {
    var k := FirstFailing(xs, ok);
    xs[..if k < |xs| then k + 1 else k]
  }

  function Reverse<X>(xs: seq<X>): (r: seq<X>)
    ensures |r| == |xs|
    ensures forall i :: 0 <= i < |xs| ==> r[i] == xs[|xs| - 1 - i]
  {
    seq(|xs|, i requires 0 <= i < |xs| => xs[|xs| - 1 - i])
  }

  // ---------------------------------------------------------------------------
  // The `split` lambda: "<module>=<level>"
  // ---------------------------------------------------------------------------

  /** The three `runtime_error`s that `split` throws. */
  datatype SplitError = NoSeparator | NoModuleName | NoLevel

  function SplitErrorMessage(e: SplitError): string {
    match e
    case NoSeparator => "log level entry must be separated by '='"
    case NoModuleName => "no module name specified in log level override"
    case NoLevel => "no log level specified for module log level override"
  }

  /** `s.find(c)`: the first position of `c`, or none (`npos`). */
  function Find(s: string, c: char): (r: Option<nat>)
    ensures r.None? <==> c !in s
    ensures r.Some? ==> r.value < |s| && s[r.value] == c && c !in s[..r.value]
    decreases |s|
  {
    if s == [] then None
    else if s[0] == c then Some(0)
    else match Find(s[1..], c)
      case None => None
      case Some(k) =>
        assert s[..k + 1] == [s[0]] + s[1..][..k];
        Some(k + 1)
  }

  /** `s.substr(pos, count)`: a count running past the end stops at the end. */
  function Substr(s: string, pos: nat, count: nat): (r: string)
    requires pos <= |s|
    ensures r == s[pos..if pos + count <= |s| then pos + count else |s|]
  {
    if pos + count <= |s| then s[pos..pos + count] else s[pos..]
  }

  /** `split(token)`. */
  function Split(token: string): (r: Result<(string, string), SplitError>)
    ensures r == Err(NoSeparator) <==> '=' !in token
    ensures r == Err(NoModuleName) <==> token != [] && token[0] == '='
    ensures r == Err(NoLevel) <==> |token| > 1 && token[|token| - 1] == '=' && '=' !in token[..|token| - 1]
    ensures r.Ok? ==> var (m, l) := r.value;
      0 < |m| < |token| - 1 && m == token[..|m|] && token[|m|] == '=' && l == token[|m| + 1..] && '=' !in m
  {
    match Find(token, '=')
    case None => Err(NoSeparator)
    case Some(pos) =>
      if pos == 0 then Err(NoModuleName)
      else if pos == |token| - 1 then Err(NoLevel)
      else
        var first := Substr(token, 0, pos);
        var second := Substr(token, pos + 1, |token| - pos + 1);
        Ok((first, second))
  }

  /** A well-formed override splits back into its module and level, even
      when the level text itself holds a '='. */
  lemma SplitRoundTrip(m: string, l: string)
    requires m != [] && l != [] && '=' !in m
    ensures Split(m + "=" + l) == Ok((m, l))
  {
    var t := m + "=" + l;
    assert t[|m|] == '=';
    assert t[..|m|] == m;
    assert forall j :: 0 <= j < |m| ==> t[j] == m[j];
    var f := Find(t, '=');
    assert f.Some? && f.value <= |m|;
    assert f.value == |m|;
    assert t[|m| + 1..] == l;
  }

  // ---------------------------------------------------------------------------
  // --log_level
  // ---------------------------------------------------------------------------

  /** The ways start-up fails. */
  datatype AppError =
    | BadOverride(token: string, reason: SplitError)
    | BadLevel(text: string, message: string)
    | TcpOptionConflict
    | StepFailed(step: Step)

  /** A parsed override: the module and its level. */
  type Override = (string, Log.LogLevel)

  /** One `module=level` token: split, then the level parsed. */
  function ParseOverride(token: string): Result<Override, AppError> {
    match Split(token)
    case Err(e) => Err(BadOverride(token, e))
    case Ok((m, l)) =>
      match Log.LogLevelFromStr(l)
      case Ok(level) => Ok((m, level))
      case Err(msg) => Err(BadLevel(l, msg))
  }

  /** A valid override is exactly a split token whose level text names a
      level. */
  lemma ParseOverrideCases(token: string)
    ensures ParseOverride(token).Ok? <==> Split(token).Ok? && Log.LogLevelFromStr(Split(token).value.1).Ok?
    ensures Split(token).Err? ==> ParseOverride(token) == Err(BadOverride(token, Split(token).error))
    ensures ParseOverride(token).Ok? ==>
      ParseOverride(token).value == (Split(token).value.0, Log.LogLevelFromStr(Split(token).value.1).value)
  {
  }

  /** A parser of one override entry. */
  type EntryParser = string -> Result<Override, AppError>

  /** The parse of every token. */
  function ParseAll(tokens: seq<string>, parse: EntryParser): (r: seq<Result<Override, AppError>>)
    ensures |r| == |tokens|
    ensures forall i :: 0 <= i < |tokens| ==> r[i] == parse(tokens[i])
  {
    seq(|tokens|, i requires 0 <= i < |tokens| => parse(tokens[i]))
  }

  predicate Parsed(r: Result<Override, AppError>) {
    r.Ok?
  }

  /** The overrides of the first `k` results, all of which parsed. */
  function Successes(results: seq<Result<Override, AppError>>, k: nat): (r: seq<Override>)
    requires k <= |results|
    requires forall i :: 0 <= i < k ==> results[i].Ok?
    ensures |r| == k
    ensures forall i :: 0 <= i < k ==> r[i] == results[i].value
  {
    seq(k, i requires 0 <= i < k => results[i].value)
  }

  lemma SuccessesSnoc(results: seq<Result<Override, AppError>>, k: nat)
    requires k < |results|
    requires forall i :: 0 <= i <= k ==> results[i].Ok?
    ensures Successes(results, k + 1) == Successes(results, k) + [results[k].value]
  {
  }

  /** The level table that a list of overrides writes, in order: a later
      entry for a module overwrites an earlier one. */
  function LevelTable(pairs: seq<Override>): map<string, Log.LogLevel>
    decreases |pairs|
  {
    if pairs == [] then map[]
    else LevelTable(pairs[..|pairs| - 1])[pairs[|pairs| - 1].0 := pairs[|pairs| - 1].1]
  }

  /** The table holds each module with the level of its last entry. */
  lemma {:induction false} LevelTableLastWins(pairs: seq<Override>, i: nat)
    requires i < |pairs|
    requires forall j :: i < j < |pairs| ==> pairs[j].0 != pairs[i].0
    ensures pairs[i].0 in LevelTable(pairs) && LevelTable(pairs)[pairs[i].0] == pairs[i].1
    decreases |pairs|
  {
    if i < |pairs| - 1 {
      LevelTableLastWins(pairs[..|pairs| - 1], i);
    }
  }

  /** The table holds exactly the modules the entries name. */
  lemma {:induction false} LevelTableKeys(pairs: seq<Override>, n: string)
    ensures n in LevelTable(pairs) <==> exists i :: 0 <= i < |pairs| && pairs[i].0 == n
    decreases |pairs|
  {
    if pairs != [] {
      var init := pairs[..|pairs| - 1];
      LevelTableKeys(init, n);
      if n in LevelTable(init) {
        var i :| 0 <= i < |init| && init[i].0 == n;
        assert pairs[i].0 == n;
      }
      if exists i :: 0 <= i < |pairs| && pairs[i].0 == n {
        var i :| 0 <= i < |pairs| && pairs[i].0 == n;
        assert i < |pairs| - 1 ==> init[i].0 == n;
      }
    }
  }

  /** A reader of the global level entry (`LogLevelFromStr`). */
  type LevelParser = string -> Result<Log.LogLevel, string>

  /** Whether and how the `--log_level` set-up fails: the first entry must be
      a level; every later one a valid override. */
  function LogSetupOutcome(logLevel: Option<seq<string>>): Result<(), AppError> {
    SetupOutcomeWith(logLevel, Log.LogLevelFromStr, ParseOverride)
  }

  /** `LogSetupOutcome` for any pair of entry readers. */
  function SetupOutcomeWith(logLevel: Option<seq<string>>, parseLevel: LevelParser, parse: EntryParser): Result<(), AppError> {
    if logLevel.None? || logLevel.value == [] then Ok(())
    else
      var levels := logLevel.value;
      match parseLevel(levels[0])
      case Err(msg) => Err(BadLevel(levels[0], msg))
      case Ok(_) => OverridesOutcome(levels[1..], parse)
  }

  /** The outcome of the override entries: the error of the first invalid
      one, if any. */
  function OverridesOutcome(tokens: seq<string>, parse: EntryParser): Result<(), AppError> {
    var results := ParseAll(tokens, parse);
    var k := FirstFailing(results, Parsed);
    if k < |results| then Err(results[k].error) else Ok(())
  }

  /** The overrides applied: those before the first invalid entry. */
  function OverridesApplied(tokens: seq<string>, parse: EntryParser): seq<Override> {
    var results := ParseAll(tokens, parse);
    Successes(results, FirstFailing(results, Parsed))
  }

  /** The global level after the set-up, given the level before. */
  function GlobalLevelAfter(logLevel: Option<seq<string>>, before: Log.LogLevel): Log.LogLevel {
    GlobalLevelWith(logLevel, Log.LogLevelFromStr, before)
  }

  function GlobalLevelWith(logLevel: Option<seq<string>>, parseLevel: LevelParser, before: Log.LogLevel): Log.LogLevel {
    if logLevel.None? || logLevel.value == [] then Log.Info
    else match parseLevel(logLevel.value[0])
      case Ok(l) => l
      case Err(_) => before
  }

  /** The overrides the set-up applies, in order. */
  function AppliedOverrides(logLevel: Option<seq<string>>): seq<Override> {
    AppliedWith(logLevel, Log.LogLevelFromStr, ParseOverride)
  }

  function AppliedWith(logLevel: Option<seq<string>>, parseLevel: LevelParser, parse: EntryParser): seq<Override> {
    if logLevel.None? || logLevel.value == [] || parseLevel(logLevel.value[0]).Err? then []
    else OverridesApplied(logLevel.value[1..], parse)
  }

  /** A later write of one key on top of a union is a write into the
      right-hand table. */
  lemma UnionUpdate(base: map<string, Log.LogLevel>, table: map<string, Log.LogLevel>, m: string, l: Log.LogLevel)
    ensures base + table[m := l] == (base + table)[m := l]
  {
  }

  lemma LevelTableSnoc(pairs: seq<Override>, p: Override)
    ensures LevelTable(pairs + [p]) == LevelTable(pairs)[p.0 := p.1]
  {
    assert (pairs + [p])[..|pairs|] == pairs;
  }

  /** The module level of every live logger, by name. */
  ghost function LoggerLevels(registry: Log.LogRegistry): map<string, Log.LogLevel>
    reads registry`moduleLoggers, registry.moduleLoggers.Values
  {
    map n | n in registry.moduleLoggers :: registry.moduleLoggers[n].moduleLevel
  }

  /** `levels` with every name that `table` also holds taking the table's
      level; names only in `table` are not added. */
  function Overlay(levels: map<string, Log.LogLevel>, table: map<string, Log.LogLevel>): map<string, Log.LogLevel> {
    map n | n in levels :: if n in table then table[n] else levels[n]
  }

  lemma OverlayEmpty(levels: map<string, Log.LogLevel>)
    ensures Overlay(levels, LevelTable([])) == levels
  {
  }

  lemma OverlayUpdate(levels: map<string, Log.LogLevel>, table: map<string, Log.LogLevel>, m: string, l: Log.LogLevel)
    ensures Overlay(levels, table[m := l]) == Overlay(Overlay(levels, table), map[m := l])
  {
  }

  /** One accepted override: recorded for loggers created later, and applied
      to the live logger of that module if there is one. */
  method ApplyOverride(registry: Log.LogRegistry, moduleName: string, level: Log.LogLevel)
    requires registry.Valid()
    modifies registry, registry.moduleLoggers.Values
    ensures registry.Valid()
    ensures registry.moduleLoggers == old(registry.moduleLoggers)
    ensures registry.threadLocalLogLevel == old(registry.threadLocalLogLevel)
    ensures registry.moduleLevels == old(registry.moduleLevels)[moduleName := level]
    ensures LoggerLevels(registry) == Overlay(old(LoggerLevels(registry)), map[moduleName := level])
  {
    registry.moduleLevels := registry.moduleLevels[moduleName := level];
    if moduleName in registry.moduleLoggers {
      var logger := registry.moduleLoggers[moduleName];
      logger.moduleLevel := level;
    }
  }

  /** `applied` is what the first `i` entries write, all of them valid. */
  predicate AppliedUpTo(tokens: seq<string>, parse: EntryParser, i: nat, applied: seq<Override>) {
    var results := ParseAll(tokens, parse);
    i <= |tokens| && (forall j :: 0 <= j < i ==> results[j].Ok?) && applied == Successes(results, i)
  }

  lemma OverridesStart(tokens: seq<string>, parse: EntryParser)
    ensures AppliedUpTo(tokens, parse, 0, [])
  {
  }

  lemma OverridesStep(tokens: seq<string>, parse: EntryParser, i: nat, applied: seq<Override>, p: Override)
    requires AppliedUpTo(tokens, parse, i, applied)
    requires i < |tokens| && parse(tokens[i]) == Ok(p)
    ensures AppliedUpTo(tokens, parse, i + 1, applied + [p])
  {
    var results := ParseAll(tokens, parse);
    assert results[i] == Ok(p);
    SuccessesSnoc(results, i);
  }

  lemma OverridesStopAt(tokens: seq<string>, parse: EntryParser, i: nat, applied: seq<Override>)
    requires AppliedUpTo(tokens, parse, i, applied)
    requires i < |tokens| && parse(tokens[i]).Err?
    ensures OverridesOutcome(tokens, parse) == Err(parse(tokens[i]).error)
    ensures OverridesApplied(tokens, parse) == applied
  {
    FirstFailingAt(ParseAll(tokens, parse), Parsed, i);
  }

  lemma OverridesEnd(tokens: seq<string>, parse: EntryParser, applied: seq<Override>)
    requires AppliedUpTo(tokens, parse, |tokens|, applied)
    ensures OverridesOutcome(tokens, parse) == Ok(())
    ensures OverridesApplied(tokens, parse) == applied
  {
  }

  /** The loop over the entries after the first: each is parsed (by the
      `split` lambda and the level lookup, `parse` here) and applied in
      turn, and the first invalid one throws, leaving the earlier ones
      applied. */
  method ApplyOverrides(registry: Log.LogRegistry, tokens: seq<string>, parse: EntryParser)
    returns (r: Result<(), AppError>)
    requires registry.Valid()
    modifies registry, registry.moduleLoggers.Values
    ensures registry.Valid()
    ensures r == OverridesOutcome(tokens, parse)
    ensures registry.moduleLoggers == old(registry.moduleLoggers)
    ensures registry.threadLocalLogLevel == old(registry.threadLocalLogLevel)
    ensures registry.moduleLevels == old(registry.moduleLevels) + LevelTable(OverridesApplied(tokens, parse))
    ensures LoggerLevels(registry) == Overlay(old(LoggerLevels(registry)), LevelTable(OverridesApplied(tokens, parse)))
  {
    ghost var initial := LoggerLevels(registry);
    ghost var applied: seq<Override> := [];
    OverridesStart(tokens, parse);
    var i := 0;
    while i < |tokens|
      invariant AppliedUpTo(tokens, parse, i, applied)
      invariant registry.Valid()
      invariant registry.moduleLoggers == old(registry.moduleLoggers)
      invariant registry.threadLocalLogLevel == old(registry.threadLocalLogLevel)
      invariant registry.moduleLevels == old(registry.moduleLevels) + LevelTable(applied)
      invariant LoggerLevels(registry) == Overlay(initial, LevelTable(applied))
    {
      var parsed := parse(tokens[i]);
      if parsed.Err? {
        OverridesStopAt(tokens, parse, i, applied);
        return Err(parsed.error);
      }
      var (moduleName, level) := parsed.value;
      OverridesStep(tokens, parse, i, applied, (moduleName, level));
      LevelTableSnoc(applied, (moduleName, level));
      UnionUpdate(old(registry.moduleLevels), LevelTable(applied), moduleName, level);
      OverlayUpdate(initial, LevelTable(applied), moduleName, level);
      applied := applied + [(moduleName, level)];
      ApplyOverride(registry, moduleName, level);
      i := i + 1;
    }
    OverridesEnd(tokens, parse, applied);
    r := Ok(());
  }

  /** The per-shard body of the first fan-out: sets the global level (Info
      when no list or an empty one is given), then applies the overrides. */
  method ConfigureLogLevels(registry: Log.LogRegistry, logLevel: Option<seq<string>>)
    returns (r: Result<(), AppError>)
    requires registry.Valid()
    modifies registry, registry.moduleLoggers.Values
    ensures registry.Valid()
    ensures r == LogSetupOutcome(logLevel)
    ensures registry.moduleLoggers == old(registry.moduleLoggers)
    ensures registry.threadLocalLogLevel == GlobalLevelAfter(logLevel, old(registry.threadLocalLogLevel))
    ensures registry.moduleLevels == old(registry.moduleLevels) + LevelTable(AppliedOverrides(logLevel))
    ensures LoggerLevels(registry) == Overlay(old(LoggerLevels(registry)), LevelTable(AppliedOverrides(logLevel)))
  {
    r := ConfigureWith(registry, logLevel, Log.LogLevelFromStr, ParseOverride);
  }

  /** `ConfigureLogLevels` for any pair of entry readers. */
  method ConfigureWith(registry: Log.LogRegistry, logLevel: Option<seq<string>>, parseLevel: LevelParser, parse: EntryParser)
    returns (r: Result<(), AppError>)
    requires registry.Valid()
    modifies registry, registry.moduleLoggers.Values
    ensures registry.Valid()
    ensures r == SetupOutcomeWith(logLevel, parseLevel, parse)
    ensures registry.moduleLoggers == old(registry.moduleLoggers)
    ensures registry.threadLocalLogLevel == GlobalLevelWith(logLevel, parseLevel, old(registry.threadLocalLogLevel))
    ensures registry.moduleLevels == old(registry.moduleLevels) + LevelTable(AppliedWith(logLevel, parseLevel, parse))
    ensures LoggerLevels(registry) == Overlay(old(LoggerLevels(registry)), LevelTable(AppliedWith(logLevel, parseLevel, parse)))
  {
    OverlayEmpty(LoggerLevels(registry));
    if logLevel.None? || logLevel.value == [] {
      registry.threadLocalLogLevel := Log.Info;
      return Ok(());
    }
    var levels := logLevel.value;
    var global := parseLevel(levels[0]);
    if global.Err? {
      return Err(BadLevel(levels[0], global.error));
    }
    registry.threadLocalLogLevel := global.value;
    r := ApplyOverrides(registry, levels[1..], parse);
  }

  /** The global level is Info unless a non-empty list names another. */
  lemma DefaultGlobalLevel(logLevel: Option<seq<string>>, before: Log.LogLevel)
    ensures logLevel.None? || logLevel.value == [] ==> GlobalLevelAfter(logLevel, before) == Log.DefaultLogLevel
    ensures logLevel.Some? && logLevel.value != [] && Log.LogLevelFromStr(logLevel.value[0]).Ok? ==>
      GlobalLevelAfter(logLevel, before) == Log.LogLevelFromStr(logLevel.value[0]).value
  {
  }

  /** When every entry is valid the set-up succeeds, and each module gets
      the level of the last entry that names it. */
  lemma OverridesHonoured(levels: seq<string>, i: nat)
    requires |levels| >= 1 && Log.LogLevelFromStr(levels[0]).Ok?
    requires forall j :: 1 <= j < |levels| ==> ParseOverride(levels[j]).Ok?
    requires 1 <= i < |levels|
    requires forall j :: i < j < |levels| ==> ParseOverride(levels[j]).value.0 != ParseOverride(levels[i]).value.0
    ensures LogSetupOutcome(Some(levels)) == Ok(())
    ensures var p := ParseOverride(levels[i]).value; var t := LevelTable(AppliedOverrides(Some(levels)));
      p.0 in t && t[p.0] == p.1
  {
    EntriesHonoured(levels, ParseOverride, i);
  }

  /** `OverridesHonoured` for any entry parser: the entries after the first
      all parse, and entry `i` names its module for the last time. */
  lemma EntriesHonoured(levels: seq<string>, parse: EntryParser, i: nat)
    requires forall j :: 1 <= j < |levels| ==> parse(levels[j]).Ok?
    requires 1 <= i < |levels|
    requires forall j :: i < j < |levels| ==> parse(levels[j]).value.0 != parse(levels[i]).value.0
    ensures OverridesOutcome(levels[1..], parse) == Ok(())
    ensures var p := parse(levels[i]).value; var t := LevelTable(OverridesApplied(levels[1..], parse));
      p.0 in t && t[p.0] == p.1
  {
    var results := ParseAll(levels[1..], parse);
    forall j | 0 <= j < |results| ensures Parsed(results[j]) {
      assert results[j] == parse(levels[j + 1]);
    }
    var k := FirstFailing(results, Parsed);
    assert k == |results|;
    var pairs := Successes(results, k);
    assert pairs[i - 1] == parse(levels[i]).value;
    forall j | i - 1 < j < |pairs| ensures pairs[j].0 != pairs[i - 1].0 {
      assert pairs[j] == parse(levels[j + 1]).value;
    }
    LevelTableLastWins(pairs, i - 1);
  }

  /** An invalid entry ends the set-up with its error, and the entries
      before it stay applied. */
  lemma FailedOverrideKeepsEarlier(levels: seq<string>, i: nat)
    requires |levels| >= 1 && Log.LogLevelFromStr(levels[0]).Ok?
    requires 1 <= i < |levels|
    requires forall j :: 1 <= j < i ==> ParseOverride(levels[j]).Ok?
    requires ParseOverride(levels[i]).Err?
    ensures LogSetupOutcome(Some(levels)) == Err(ParseOverride(levels[i]).error)
    ensures |AppliedOverrides(Some(levels))| == i - 1
    ensures forall j :: 1 <= j < i ==> AppliedOverrides(Some(levels))[j - 1] == ParseOverride(levels[j]).value
  {
    FailedEntryKeepsEarlier(levels, ParseOverride, i);
  }

  /** `FailedOverrideKeepsEarlier` for any entry parser. */
  lemma FailedEntryKeepsEarlier(levels: seq<string>, parse: EntryParser, i: nat)
    requires 1 <= i < |levels|
    requires forall j :: 1 <= j < i ==> parse(levels[j]).Ok?
    requires parse(levels[i]).Err?
    ensures OverridesOutcome(levels[1..], parse) == Err(parse(levels[i]).error)
    ensures |OverridesApplied(levels[1..], parse)| == i - 1
    ensures forall j :: 1 <= j < i ==> OverridesApplied(levels[1..], parse)[j - 1] == parse(levels[j]).value
  {
    var results := ParseAll(levels[1..], parse);
    assert !Parsed(results[i - 1]);
    forall j | 0 <= j < i - 1 ensures Parsed(results[j]) {
      assert results[j] == parse(levels[j + 1]);
    }
    FirstFailingAt(results, Parsed, i - 1);
  }

  // ---------------------------------------------------------------------------
  // TCP options and the protocol builder
  // ---------------------------------------------------------------------------

  newtype Uint16 = x: int | 0 <= x < 0x1_0000

  /** The parsed options that start-up consults. */
  datatype Options = Options(logLevel: Option<seq<string>>, tcpPort: Option<Uint16>, tcpEndpoints: Option<seq<string>>)

  /** The shape of the TCP protocol builder: one port shared by all shards,
      one endpoint per shard through a `MultiAddressProvider`, or neither. */
  datatype TcpBuilder = SharedPort(port: Uint16) | PerShardEndpoints(endpoints: seq<string>) | Ephemeral

  /** The builder chosen for the options, or the conflict error. */
  function ChooseBuilder(opts: Options): Result<TcpBuilder, AppError> {
    if opts.tcpPort.Some? && opts.tcpEndpoints.Some? then Err(TcpOptionConflict)
    else if opts.tcpPort.Some? then Ok(SharedPort(opts.tcpPort.value))
    else if opts.tcpEndpoints.Some? then Ok(PerShardEndpoints(opts.tcpEndpoints.value))
    else Ok(Ephemeral)
  }

  /** The choice is exclusive and each shape comes from its own option. */
  lemma BuilderChoice(opts: Options)
    ensures ChooseBuilder(opts).Err? <==> opts.tcpPort.Some? && opts.tcpEndpoints.Some?
    ensures ChooseBuilder(opts).Ok? ==>
      (ChooseBuilder(opts).value.SharedPort? <==> opts.tcpPort.Some?) &&
      (ChooseBuilder(opts).value.PerShardEndpoints? <==> opts.tcpEndpoints.Some?) &&
      (ChooseBuilder(opts).value.Ephemeral? <==> opts.tcpPort.None? && opts.tcpEndpoints.None?)
    ensures ChooseBuilder(opts) == Ok(SharedPort(opts.tcpPort.value)) <== opts.tcpPort.Some? && opts.tcpEndpoints.None?
    ensures ChooseBuilder(opts) == Ok(PerShardEndpoints(opts.tcpEndpoints.value)) <== opts.tcpPort.None? && opts.tcpEndpoints.Some?
  {
  }

  // ---------------------------------------------------------------------------
  // Exit hooks, phases, stoppers
  // ---------------------------------------------------------------------------

  /** The at-exit hooks, named after what they stop. */
  datatype ExitHook =
    | StopConfig | StopPrometheus | StopVnet | StopTcpProto | StopRrdma | StopDispatcher | StopAutoProto
    | HardStopApplets | GracefulStopApplets

  /** The order in which start-up registers them. */
  const ExitHookOrder: seq<ExitHook> :=
    [StopConfig, StopPrometheus, StopVnet, StopTcpProto, StopRrdma, StopDispatcher, StopAutoProto,
     HardStopApplets, GracefulStopApplets]

  /** The steps of the construction and start phases. */
  datatype Step =
    | CreateConfig | CreatePrometheus | CreateVnet | CreateTcp | CreateRdma | CreateAutoRdma
    | CreateDispatcher | CreateApplets
    | StartVns | StartTcpProto | RegisterTcp | StartRdma | RegisterRdma | StartAutoRdma
    | RegisterAutoRdma | StartDispatcher | StartApplets

  const ConstructionSteps: seq<Step> :=
    [CreateConfig, CreatePrometheus, CreateVnet, CreateTcp, CreateRdma, CreateAutoRdma,
     CreateDispatcher, CreateApplets]

  const StartSteps: seq<Step> :=
    [StartVns, StartTcpProto, RegisterTcp, StartRdma, RegisterRdma, StartAutoRdma,
     RegisterAutoRdma, StartDispatcher, StartApplets]

  /** The whole chain of continuations after the exit hooks are registered. */
  const PhaseChain: seq<Step> := ConstructionSteps + StartSteps

  /** A user applet function (constructor, starter or stopper). */
  type AppletId = nat

  /** The outcomes the environment gives: of each subsystem step (all
      shards together) and of each user applet function. */
  datatype Environment = Environment(stepOk: Step -> bool, appletOk: AppletId -> bool)

  predicate AllSucceed(applets: seq<AppletId>, ok: AppletId -> bool) {
    forall i :: 0 <= i < |applets| ==> ok(applets[i])
  }

  /** Whether one step succeeds: the applet steps succeed when every applet
      function does (`when_all_succeed`); the others as the environment says. */
  function StepSucceeds(s: Step, env: Environment, ctors: seq<AppletId>, starters: seq<AppletId>): bool {
    if s == CreateApplets then AllSucceed(ctors, env.appletOk)
    else if s == StartApplets then AllSucceed(starters, env.appletOk)
    else env.stepOk(s)
  }

  function PhaseOk(env: Environment, ctors: seq<AppletId>, starters: seq<AppletId>): Step -> bool {
    s => StepSucceeds(s, env, ctors, starters)
  }

  /** What running the phases under `ok` leaves: the trace gains every step
      up to and including the first failing one, and the result is `Ok`
      exactly when no step fails, otherwise `StepFailed` of that step. */
  predicate PhasesRan(ok: Step -> bool, r: Result<(), AppError>, before: seq<Step>, after: seq<Step>) {
    && after == before + RunPrefix(PhaseChain, ok)
    && (r.Ok? <==> FirstFailing(PhaseChain, ok) == |PhaseChain|)
    && (r.Err? ==> r.error == StepFailed(PhaseChain[FirstFailing(PhaseChain, ok)]))
  }

  /** The user-applet loop: every function is called before any result is
      awaited, and the step succeeds when all of them do. */
  method RunApplets(applets: seq<AppletId>, ok: AppletId -> bool) returns (allSucceeded: bool, invoked: seq<AppletId>)
    ensures invoked == applets
    ensures allSucceeded <==> AllSucceed(applets, ok)
  {
    invoked := [];
    allSucceeded := true;
    var i := 0;
    while i < |applets|
      invariant 0 <= i <= |applets|
      invariant invoked == applets[..i]
      invariant allSucceeded <==> AllSucceed(applets[..i], ok)
    {
      invoked := invoked + [applets[i]];
      allSucceeded := allSucceeded && ok(applets[i]);
      assert applets[..i + 1] == applets[..i] + [applets[i]];
      i := i + 1;
    }
    assert applets[..i] == applets;
  }

  /** An aggregate stop hook: `do_for_each` over the stoppers from last to
      first, stopping at the first that fails; the failure is caught and
      logged, so the hook itself always completes. */
  method RunStoppers(stoppers: seq<AppletId>, ok: AppletId -> bool) returns (ran: seq<AppletId>, caught: bool)
    ensures ran == RunPrefix(Reverse(stoppers), ok)
    ensures caught <==> !AllSucceed(stoppers, ok)
  {
    ghost var order := Reverse(stoppers);
    ran := [];
    caught := false;
    var i := |stoppers|;
    while i > 0
      invariant 0 <= i <= |stoppers|
      invariant |ran| == |stoppers| - i
      invariant ran == order[..|ran|]
      invariant forall j :: 0 <= j < |ran| ==> ok(ran[j])
    {
      var s := stoppers[i - 1];
      assert s == order[|ran|];
      ran := ran + [s];
      if !ok(s) {
        caught := true;
        assert FirstFailing(order, ok) == |ran| - 1;
        assert !ok(stoppers[i - 1]);
        return;
      }
      i := i - 1;
    }
    assert order[..|ran|] == order;
    assert FirstFailing(order, ok) == |order|;
    forall j | 0 <= j < |stoppers| ensures ok(stoppers[j]) {
      assert stoppers[j] == order[|stoppers| - 1 - j];
    }
  }

  /** With no failing stopper, every stopper runs, in reverse registration
      order. */
  lemma StoppersAllRun(stoppers: seq<AppletId>, ok: AppletId -> bool)
    requires AllSucceed(stoppers, ok)
    ensures RunPrefix(Reverse(stoppers), ok) == Reverse(stoppers)
  {
    var order := Reverse(stoppers);
    forall i | 0 <= i < |order| ensures ok(order[i]) {
      assert order[i] == stoppers[|stoppers| - 1 - i];
    }
  }

  /** A failing stopper ends its hook: registered A, B, C with B failing,
      C and B run and A does not. */
  lemma FailingStopperEndsHook(a: AppletId, b: AppletId, c: AppletId, ok: AppletId -> bool)
    requires ok(c) && !ok(b)
    ensures RunPrefix(Reverse([a, b, c]), ok) == [c, b]
  {
    var order := Reverse([a, b, c]);
    assert order == [c, b, a];
    assert FirstFailing(order[1..], ok) == 0;
    assert FirstFailing(order, ok) == 1;
  }

  /** Seastar runs at-exit hooks last registered first. Under that runtime
      assumption the user applets are stopped, gracefully then hard, before
      any subsystem, and the configuration is stopped last. */
  lemma ExitOrderUnderLifo()
    ensures var run := Reverse(ExitHookOrder);
      run[0] == GracefulStopApplets && run[1] == HardStopApplets
      && run[|run| - 1] == StopConfig
      && run[2..|run| - 1] == [StopAutoProto, StopDispatcher, StopRrdma, StopTcpProto, StopVnet, StopPrometheus]
  {
    var run := Reverse(ExitHookOrder);
    assert run == [GracefulStopApplets, HardStopApplets, StopAutoProto, StopDispatcher, StopRrdma,
                   StopTcpProto, StopVnet, StopPrometheus, StopConfig];
  }

  /** An `exit(retcode)` submitted to a shard. */
  datatype ExitRequest = ExitRequest(shard: nat, retcode: int)

  /** The application: the one shard's logging statics, the user applet
      lists, the chosen builder, the registered exit hooks, the steps run so
      far and the exit requests made. */
  class App {
    const registry: Log.LogRegistry
    var ctors: seq<AppletId>
    var starters: seq<AppletId>
    var stoppers: seq<AppletId>
    var gracefulStoppers: seq<AppletId>
    var tcpProtoBuilder: Option<TcpBuilder>
    var atExitHooks: seq<ExitHook>
    var trace: seq<Step>
    var exitRequests: seq<ExitRequest>

    ghost predicate Valid()
      reads this, registry
    {
      registry.Valid()
    }

    constructor (registry: Log.LogRegistry, ctors: seq<AppletId>, starters: seq<AppletId>,
                 stoppers: seq<AppletId>, gracefulStoppers: seq<AppletId>)
      requires registry.Valid()
      ensures Valid()
      ensures this.registry == registry
      ensures this.ctors == ctors && this.starters == starters
      ensures this.stoppers == stoppers && this.gracefulStoppers == gracefulStoppers
      ensures tcpProtoBuilder == None && atExitHooks == [] && trace == [] && exitRequests == []
    {
      this.registry := registry;
      this.ctors := ctors;
      this.starters := starters;
      this.stoppers := stoppers;
      this.gracefulStoppers := gracefulStoppers;
      tcpProtoBuilder := None;
      atExitHooks := [];
      trace := [];
      exitRequests := [];
    }

    /** The second continuation: rejects both TCP options together, before
        choosing a builder or registering any hook; otherwise chooses the
        builder and registers the nine exit hooks in order. */
    method RegisterExitHooks(opts: Options) returns (r: Result<(), AppError>)
      modifies this`tcpProtoBuilder, this`atExitHooks
      ensures r.Err? <==> ChooseBuilder(opts).Err?
      ensures r.Err? ==> r.error == TcpOptionConflict
      ensures r.Err? ==> tcpProtoBuilder == old(tcpProtoBuilder) && atExitHooks == old(atExitHooks)
      ensures r.Ok? ==> tcpProtoBuilder == Some(ChooseBuilder(opts).value)
      ensures r.Ok? ==> atExitHooks == old(atExitHooks) + ExitHookOrder
    {
      if opts.tcpPort.Some? && opts.tcpEndpoints.Some? {
        return Err(TcpOptionConflict);
      }
      if opts.tcpPort.Some? {
        tcpProtoBuilder := Some(SharedPort(opts.tcpPort.value));
      } else if opts.tcpEndpoints.Some? {
        tcpProtoBuilder := Some(PerShardEndpoints(opts.tcpEndpoints.value));
      } else {
        tcpProtoBuilder := Some(Ephemeral);
      }
      var hooks := [StopConfig];
      hooks := hooks + [StopPrometheus];
      hooks := hooks + [StopVnet];
      hooks := hooks + [StopTcpProto];
      hooks := hooks + [StopRrdma];
      hooks := hooks + [StopDispatcher];
      hooks := hooks + [StopAutoProto];
      hooks := hooks + [HardStopApplets];
      hooks := hooks + [GracefulStopApplets];
      assert hooks == ExitHookOrder;
      atExitHooks := atExitHooks + hooks;
      r := Ok(());
    }

    /** One step of the chain: the applet steps run the registered applet
        functions; the others are the environment's. */
    method RunStep(step: Step, env: Environment) returns (succeeded: bool)
      ensures succeeded == StepSucceeds(step, env, ctors, starters)
    {
      if step == CreateApplets {
        var invoked;
        succeeded, invoked := RunApplets(ctors, env.appletOk);
      } else if step == StartApplets {
        var invoked;
        succeeded, invoked := RunApplets(starters, env.appletOk);
      } else {
        succeeded := env.stepOk(step);
      }
    }

    /** The construction and start continuations: each step runs only if
        every earlier one succeeded; the first failure is re-raised. */
    method RunPhases(env: Environment) returns (r: Result<(), AppError>)
      modifies this`trace
      ensures PhasesRan(PhaseOk(env, ctors, starters), r, old(trace), trace)
    {
      r := RunChain(PhaseChain, env);
    }

    /** Runs `chain` step by step, stopping at the first failure. */
    method RunChain(chain: seq<Step>, env: Environment) returns (r: Result<(), AppError>)
      modifies this`trace
      ensures trace == old(trace) + RunPrefix(chain, PhaseOk(env, ctors, starters))
      ensures r.Ok? <==> FirstFailing(chain, PhaseOk(env, ctors, starters)) == |chain|
      ensures r.Err? ==> r.error == StepFailed(chain[FirstFailing(chain, PhaseOk(env, ctors, starters))])
    {
      ghost var ok := PhaseOk(env, ctors, starters);
      var i := 0;
      while i < |chain|
        invariant 0 <= i <= |chain|
        invariant trace == old(trace) + chain[..i]
        invariant forall j :: 0 <= j < i ==> ok(chain[j])
      {
        var step := chain[i];
        var succeeded := RunStep(step, env);
        assert succeeded == ok(step);
        assert chain[..i + 1] == chain[..i] + [step];
        trace := trace + [step];
        if !succeeded {
          StopsAt(chain, ok, i);
          return Err(StepFailed(step));
        }
        i := i + 1;
      }
      RunsThrough(chain, ok);
      r := Ok(());
    }

    /** `App::start`: log set-up, then the TCP check and exit hooks, then the
        phases; the first failure ends start-up with that error. */
    method Start(opts: Options, env: Environment) returns (r: Result<(), AppError>)
      requires Valid()
      modifies this`tcpProtoBuilder, this`atExitHooks, this`trace, registry, registry.moduleLoggers.Values
      ensures Valid()
      ensures registry.moduleLoggers == old(registry.moduleLoggers)
      ensures registry.threadLocalLogLevel == GlobalLevelAfter(opts.logLevel, old(registry.threadLocalLogLevel))
      ensures registry.moduleLevels == old(registry.moduleLevels) + LevelTable(AppliedOverrides(opts.logLevel))
      ensures LoggerLevels(registry) == Overlay(old(LoggerLevels(registry)), LevelTable(AppliedOverrides(opts.logLevel)))
      ensures LogSetupOutcome(opts.logLevel).Err? ==>
        r == LogSetupOutcome(opts.logLevel) && trace == old(trace)
        && atExitHooks == old(atExitHooks) && tcpProtoBuilder == old(tcpProtoBuilder)
      ensures LogSetupOutcome(opts.logLevel).Ok? && ChooseBuilder(opts).Err? ==>
        r == Err(TcpOptionConflict) && trace == old(trace)
        && atExitHooks == old(atExitHooks) && tcpProtoBuilder == old(tcpProtoBuilder)
      ensures LogSetupOutcome(opts.logLevel).Ok? && ChooseBuilder(opts).Ok? ==>
        tcpProtoBuilder == Some(ChooseBuilder(opts).value)
        && atExitHooks == old(atExitHooks) + ExitHookOrder
        && PhasesRan(PhaseOk(env, ctors, starters), r, old(trace), trace)
    {
      r := ConfigureLogLevels(registry, opts.logLevel);
      if r.Ok? {
        r := Launch(opts, env);
      }
    }

    /** What follows the log set-up: the TCP check and exit hooks, then the
        phases. Only the application's own state changes. */
    method Launch(opts: Options, env: Environment) returns (r: Result<(), AppError>)
      modifies this`tcpProtoBuilder, this`atExitHooks, this`trace
      ensures ChooseBuilder(opts).Err? ==>
        r == Err(TcpOptionConflict) && trace == old(trace)
        && atExitHooks == old(atExitHooks) && tcpProtoBuilder == old(tcpProtoBuilder)
      ensures ChooseBuilder(opts).Ok? ==>
        tcpProtoBuilder == Some(ChooseBuilder(opts).value)
        && atExitHooks == old(atExitHooks) + ExitHookOrder
        && PhasesRan(PhaseOk(env, ctors, starters), r, old(trace), trace)
    {
      r := RegisterExitHooks(opts);
      if r.Ok? {
        r := RunPhases(env);
      }
    }

    /** One at-exit hook as it runs: "hard stop" walks `stoppers` and
        "graceful stop" walks `gracefulStoppers`, each from last to first as
        `RunStoppers` does; a subsystem hook runs no user applet. */
    method RunExitHook(h: ExitHook, ok: AppletId -> bool) returns (ran: seq<AppletId>, caught: bool)
      ensures h == HardStopApplets ==>
        ran == RunPrefix(Reverse(stoppers), ok) && (caught <==> !AllSucceed(stoppers, ok))
      ensures h == GracefulStopApplets ==>
        ran == RunPrefix(Reverse(gracefulStoppers), ok) && (caught <==> !AllSucceed(gracefulStoppers, ok))
      ensures h != HardStopApplets && h != GracefulStopApplets ==> ran == [] && !caught
    {
      if h == HardStopApplets {
        ran, caught := RunStoppers(stoppers, ok);
      } else if h == GracefulStopApplets {
        ran, caught := RunStoppers(gracefulStoppers, ok);
      } else {
        ran, caught := [], false;
      }
    }

    /** `App::stop(retcode)`: the exit request always goes to shard 0,
        whichever shard asks. */
    method Stop(callerShard: nat, retcode: int)
      modifies this`exitRequests
      ensures exitRequests == old(exitRequests) + [ExitRequest(0, retcode)]
    {
      exitRequests := exitRequests + [ExitRequest(0, retcode)];
    }
  }

  /** With every step and applet succeeding, the whole chain runs in order:
      construction of config, metrics, vnet, tcp, rdma, auto-rdma,
      dispatcher, applets, then the start steps. */
  lemma FullStartupRunsEveryStep(env: Environment, ctors: seq<AppletId>, starters: seq<AppletId>)
    requires forall s :: env.stepOk(s)
    requires AllSucceed(ctors, env.appletOk) && AllSucceed(starters, env.appletOk)
    ensures RunPrefix(PhaseChain, PhaseOk(env, ctors, starters)) == PhaseChain
    ensures FirstFailing(PhaseChain, PhaseOk(env, ctors, starters)) == |PhaseChain|
  {
    var ok := PhaseOk(env, ctors, starters);
    forall i | 0 <= i < |PhaseChain| ensures ok(PhaseChain[i]) {
    }
  }

  /** A failing step skips every later one: the trace ends with it. */
  lemma FailureSkipsLaterSteps(env: Environment, ctors: seq<AppletId>, starters: seq<AppletId>, i: nat)
    requires i < |PhaseChain|
    requires !StepSucceeds(PhaseChain[i], env, ctors, starters)
    requires forall j :: 0 <= j < i ==> StepSucceeds(PhaseChain[j], env, ctors, starters)
    ensures RunPrefix(PhaseChain, PhaseOk(env, ctors, starters)) == PhaseChain[..i + 1]
  {
    FirstFailingAt(PhaseChain, PhaseOk(env, ctors, starters), i);
  }
}
