# chogori-platform bootstrap, transport facade, logging and expression DTO — Dafny model

This project models six pieces of the chogori-platform (K2) C++ code base and proves properties about them:

- **Appbase** (`appbase.dfy`) models `App::start` and `App::stop`:
  - the `--log_level` set-up on a shard: the global level, the `module=level` token splitter, and the per-module overrides written into the logger statics;
  - the check that `--tcp_port` and `--tcp_endpoints` exclude each other, and the choice of TCP protocol builder;
  - the registration of the nine at-exit hooks, and the two aggregate stop hooks that walk the user stoppers from last to first;
  - the chain of construction and start continuations, in which the first failing step skips the rest and is re-raised;
  - the exit request, which always goes to shard 0.

  The application is a class. The fields it assigns (builder, hooks, trace of steps run, exit requests) are updated in place. Each `invoke_on_all` fan-out is one step whose outcome is given by an `Environment`.
- **VirtualNetwork** (`virtual_network_stack.dfy`) models the per-shard network stack facade:
  - a class with the TCP and RDMA low-memory observer slots;
  - registering an empty observer installs the default logging observer;
  - the two allocator segment sizes;
  - `start`, `stop` and the destructor.
- **Log** (`log.dfy`) models the logging core:
  - the `LogLevel` enum and its order;
  - the per-thread statics `threadLocalLogLevel`, `moduleLevels` and `moduleLoggers`, kept as fields of one `LogRegistry` object per shard;
  - the `Logger` class, whose constructor registers it and adopts a pending override, and whose destructor unregisters it;
  - the `isEnabledFor` gate and the `K2LOG_LEVEL_FMT` macro built on it.
- **Chrono** (`chrono.dfy`) models the time helpers:
  - C++ truncating division;
  - the `nsec`/`usec`/`msec`/`sec` casts;
  - `Deadline` with `now` passed in;
  - `toTimestamp_ts`, with its chain of `ldiv`/`div`, the `(int)` cast and the narrowing to `uint8_t`/`uint16_t` fields;
  - the zero-padded `DDDD:HH:MM:SS.mmm.uuu` layout and the duration and time-point formatters.
- **FormattingUtils** (`formatting_utils.dfy`) models the formatting helpers:
  - the boost-style `hash_combine` fold over 64-bit words, with `std::hash` as a parameter;
  - the `K2_DEF_ENUM` name table, `FromStr` and `operator<<`;
  - `fmt::join`;
  - the `std::optional` formatter;
  - the `std::set<bool>` formatter, both as written and corrected (see Findings).
- **ExpressionDto** (`expression.dfy`) models the query-filter value model:
  - `Value` and `isReference`;
  - the order of checks in `get<T>`, with the MsgPack reader as a parameter;
  - the builders `makeValueLiteral`, `makeValueReference` and `makeExpression`, with the MsgPack writer and the NaN test as parameters.
- **Wrappers** (`wrappers.dfy`) holds `Option` and `Result`.

Behaviour the environment decides is a parameter of the model:
- the clock's `now`;
- `std::hash`;
- MsgPack encoding and decoding;
- the NaN test;
- the outcome of each subsystem step and each user applet function.

Two behaviours of the code are worth stating up front:

- **Stoppers.** An aggregate stop hook runs the user stoppers with `seastar::do_for_each` (`src/k2/appbase/Appbase.cpp:155-161`, `:165-172`).
  - That call stops at the first stopper that fails.
  - Its exception is then caught and logged, so the hook completes.
  - So a failing stopper prevents the stoppers registered before it from running (`Appbase.RunStoppers`, `Appbase.FailingStopperEndsHook`).
- **Override parsing.** The override level text is `substr(pos+1, size-pos+1)` (`src/k2/appbase/Appbase.cpp:80`). Only `size-pos-1` characters follow the `=`, so the count runs two past the end, and `substr` clamps it. So the level is all the text after the first `=`.

## Model

| member | source | states |
|---|---|---|
| Appbase.FirstFailing | src/k2/appbase/Appbase.cpp:177-264 | the number of leading steps that succeed: every step before it passes, and the step at it (if any) fails |
| Appbase.RunPrefix | src/k2/appbase/Appbase.cpp:155-157 | a walk that stops at the first failure visits a prefix in which all but the last element pass; a shorter prefix ends in the failing element; the whole sequence is visited exactly when every element passes |
| Appbase.Find | src/k2/appbase/Appbase.cpp:69 | `find("=")` is none exactly when the token has no `=`; otherwise it is the position of the first `=` |
| Appbase.Substr | src/k2/appbase/Appbase.cpp:79-80 | `substr(pos, count)` with a count past the end stops at the end |
| Appbase.SplitErrorMessage | src/k2/appbase/Appbase.cpp:70-78 | a definition that gives the text each of the three splitter rejections throws, word for word |
| Appbase.Split | src/k2/appbase/Appbase.cpp:68-82 | each of the three rejections holds exactly in its own case: no `=`; `=` at index 0; the only `=` last. An accepted token gives a non-empty module (the text before the first `=`) and the level (all the text after it) |
| Appbase.SplitRoundTrip | src/k2/appbase/Appbase.cpp:68-82 | `m + "=" + l` with non-empty `m` free of `=` and non-empty `l` splits back into `(m, l)`, even when `l` holds a `=` |
| Appbase.ParseOverride | src/k2/appbase/Appbase.cpp:85-86 | a definition: split the entry, then parse its level text with `LogLevelFromStr`. A split failure reports the token and its split error, and a level failure reports the level text and the parser's message. `ParseOverrideCases` states its cases |
| Appbase.ParseOverrideCases | src/k2/appbase/Appbase.cpp:85-86 | an override entry is accepted exactly when it splits and its level text names a level; a split error is reported with the token |
| Appbase.LevelTableLastWins | src/k2/appbase/Appbase.cpp:84-92 | the entry that names a module last decides that module's level |
| Appbase.LevelTableKeys | src/k2/appbase/Appbase.cpp:87 | the written level table holds exactly the modules the entries name |
| Appbase.ApplyOverride | src/k2/appbase/Appbase.cpp:87-91 | an accepted entry writes `moduleLevels[module]` and sets the level of the live logger of that name. That is the only logger changed, and the global level and the logger registry are kept |
| Appbase.ApplyOverrides | src/k2/appbase/Appbase.cpp:84-92 | the override loop ends with the error of the first invalid entry, or with success. `moduleLevels` gains the level table of the entries before that one. Each live logger named there takes the table's level, and the other loggers are unchanged |
| Appbase.ConfigureLogLevels | src/k2/appbase/Appbase.cpp:59-98 | the per-shard log set-up. It sets the global level as `GlobalLevelAfter` says and writes the applied overrides into `moduleLevels` and the live loggers. It fails with the first bad entry's error |
| Appbase.ConfigureWith | src/k2/appbase/Appbase.cpp:62-98 | the same set-up for any pair of level and entry readers |
| Appbase.DefaultGlobalLevel | src/k2/appbase/Appbase.cpp:62-65 | the global level is Info when `log_level` is absent or an empty list; otherwise it is the level named by the first entry |
| Appbase.OverridesHonoured | src/k2/appbase/Appbase.cpp:84-92 | when every entry is valid, the set-up succeeds and each module gets the level of the last entry that names it |
| Appbase.EntriesHonoured | src/k2/appbase/Appbase.cpp:84-92 | the same for any entry parser: all entries after the first parse, so the loop succeeds and the last entry for a module wins |
| Appbase.FailedOverrideKeepsEarlier | src/k2/appbase/Appbase.cpp:84-92 | an invalid entry `i` ends the set-up with its own error; exactly the `i - 1` entries before it are applied, in order |
| Appbase.FailedEntryKeepsEarlier | src/k2/appbase/Appbase.cpp:84-92 | the same for any entry parser |
| Appbase.ChooseBuilder | src/k2/appbase/Appbase.cpp:106-120 | a definition: both TCP options together are the conflict error. Otherwise `tcp_port` gives the shared-port builder, then `tcp_endpoints` the per-shard endpoints builder, and neither the plain builder. `BuilderChoice` states it |
| Appbase.BuilderChoice | src/k2/appbase/Appbase.cpp:106-120 | the options conflict exactly when both TCP options are given. Otherwise exactly one builder shape is chosen: shared port for `tcp_port`, per-shard endpoints for `tcp_endpoints`, and the plain builder when neither is given |
| Appbase.RunApplets | src/k2/appbase/Appbase.cpp:213-220 | every user constructor (and starter) is invoked, in order; the step succeeds exactly when all of them do |
| Appbase.RunStoppers | src/k2/appbase/Appbase.cpp:153-173 | an aggregate stop hook runs the stoppers from last to first, up to and including the first that fails; it catches an exception exactly when some stopper fails |
| Appbase.StoppersAllRun | src/k2/appbase/Appbase.cpp:155-157 | with no failing stopper, every stopper runs, in reverse registration order |
| Appbase.FailingStopperEndsHook | src/k2/appbase/Appbase.cpp:155-161 | with stoppers A, B, C registered and B failing, C and B run and A does not |
| Appbase.ExitOrderUnderLifo | src/k2/appbase/Appbase.cpp:125-173 | assuming seastar runs at-exit hooks last-registered-first: the graceful then hard applet stops run before any subsystem stop, and the config stop runs last |
| Appbase.App.constructor | src/k2/appbase/Appbase.cpp:153-173 | the application holds the given registry and the four user applet lists: constructors, starters, stoppers and graceful stoppers. Start-up reads them at lines 155, 165, 216 and 260, and whatever fills them is not part of this model. It starts with no builder, no hooks, no steps run and no exit requests |
| Appbase.App.RegisterExitHooks | src/k2/appbase/Appbase.cpp:106-173 | conflicting TCP options fail before any builder is chosen or any hook is registered. Otherwise the builder is the chosen shape, and the nine hooks are appended in the order config, prometheus, vnet, tcpproto, rrdma, dispatcher, autoproto, hard stop, graceful stop |
| Appbase.App.RunStep | src/k2/appbase/Appbase.cpp:213-220 | the outcome of one step: the user-applet steps run the registered applet functions, and the other steps take their outcome from the environment |
| Appbase.App.RunPhases | src/k2/appbase/Appbase.cpp:177-272 | the construction steps then the start steps run in their fixed order, up to and including the first that fails. The result is success exactly when none fails, and otherwise names the failing step |
| Appbase.App.RunChain | src/k2/appbase/Appbase.cpp:177-272 | the same for any chain of steps |
| Appbase.App.Launch | src/k2/appbase/Appbase.cpp:100-272 | after the log set-up, a TCP conflict fails with that error and leaves everything untouched. Otherwise the builder and hooks are registered and the phases run as `RunPhases` states. A failure returns `StepFailed` of the first failing step |
| Appbase.App.Start | src/k2/appbase/Appbase.cpp:57-273 | `App::start` performs the log set-up on the shard. A log set-up error then ends start-up with that error before any hook or step. After a TCP conflict, start-up fails with the conflict and leaves the hooks and steps untouched. Otherwise the phases run, and a failure returns `StepFailed` of the first failing step |
| Appbase.App.Stop | src/k2/appbase/Appbase.cpp:279-285 | the exit request always goes to shard 0 with the given code, whichever shard asks |
| Appbase.App.RunExitHook | src/k2/appbase/Appbase.cpp:125-173 | one exit hook as it runs. "hard stop" walks the application's own `stoppers` and "graceful stop" its `gracefulStoppers`, each from last to first up to and including the first failing stopper, and each catches the failure exactly when some stopper of its list fails. The seven subsystem hooks run no user applet |
| Appbase.FullStartupRunsEveryStep | src/k2/appbase/Appbase.cpp:177-264 | when every step and applet succeeds, the whole chain runs in order and start-up succeeds |
| Appbase.FailureSkipsLaterSteps | src/k2/appbase/Appbase.cpp:177-272 | a failing step skips every later one: the steps run end with it |
| VirtualNetwork.SegmentSizes | src/k2/transport/VirtualNetworkStack.cpp:34-40 | the TCP segment size is the MTU less the TCP, IPv4 and Ethernet headers (1446) and survives the `uint16_t` narrowing; the RDMA size is `RCDataSize` |
| VirtualNetwork.DefaultObserverWarning | src/k2/transport/VirtualNetworkStack.cpp:93-96 | a definition: the default observer's warning, with the transport name and the byte count in decimal (`Chrono.Digits`) spliced into the source's format text |
| VirtualNetwork.Notify | src/k2/transport/VirtualNetworkStack.cpp:93-96 | a slot that is not empty always reacts to a low-memory signal. A registered callback is called. The default observer issues its warning through `K2LOG_W`, whose output the level gate modelled in `Log.Logger.Emit` decides |
| VirtualNetwork.Installed | src/k2/transport/VirtualNetworkStack.cpp:91-102 | registering an empty observer installs the default, and any other observer is stored as given, so the slot is never empty |
| VirtualNetwork.VirtualNetworkStack.constructor | src/k2/transport/VirtualNetworkStack.cpp:44-48 | after construction both slots hold their default logging observer |
| VirtualNetwork.VirtualNetworkStack.Destroy | src/k2/transport/VirtualNetworkStack.cpp:50-53 | the destructor empties the TCP slot and only that slot |
| VirtualNetwork.VirtualNetworkStack.RegisterLowTcpMemoryObserver | src/k2/transport/VirtualNetworkStack.cpp:91-102 | empty → default, anything else → stored; the RDMA slot is unchanged, so a stack with a non-empty RDMA slot stays valid (both slots non-empty) |
| VirtualNetwork.VirtualNetworkStack.RegisterLowRrdmaMemoryObserver | src/k2/transport/VirtualNetworkStack.cpp:123-134 | the same rule for the RDMA slot; the TCP slot is unchanged, so a stack with a non-empty TCP slot stays valid |
| VirtualNetwork.VirtualNetworkStack.GetTcpAllocator | src/k2/transport/VirtualNetworkStack.cpp:77-89 | the TCP allocator's segment size is MTU − TCP − IPv4 − Ethernet headers, independent of any state |
| VirtualNetwork.VirtualNetworkStack.GetRrdmaAllocator | src/k2/transport/VirtualNetworkStack.cpp:119-121 | the RDMA allocator's segment size is `RCDataSize`, independent of any state |
| VirtualNetwork.VirtualNetworkStack.Start | src/k2/transport/VirtualNetworkStack.cpp:73-75 | `start` changes no state |
| VirtualNetwork.VirtualNetworkStack.Stop | src/k2/transport/VirtualNetworkStack.cpp:104-107 | `stop` always completes, changing no state, whether or not `start` ran |
| VirtualNetwork.RegistrationScenario | src/k2/transport/VirtualNetworkStack.cpp:44-134 | after a sequence of TCP registrations followed by a sequence of RDMA registrations, a low-memory signal on either transport reaches the last registered observer. It reaches the default warning if that observer was empty or none was registered |
| Log.Ordinal | src/logging/src/k2/logging/FormattingUtils.h:52 | `to_integral` of a level indexes the level name table |
| Log.FromOrdinal | src/logging/src/k2/logging/Log.h:117-124 | the enumerator at a declaration position has that ordinal |
| Log.LogLevelTotalOrder | src/logging/src/k2/logging/Log.h:117-124 | the levels are totally ordered (reflexive, antisymmetric, transitive, total), from NotSet up to Fatal |
| Log.LogLevelFromStr | src/logging/src/k2/logging/FormattingUtils.h:222-227 | the parse succeeds exactly for the seven level names and gives the level of that name; any other string gives the "unsupported value" error |
| Log.LogLevelToString | src/logging/src/k2/logging/FormattingUtils.h:229-232 | a definition: a level prints as its name from the level table in braces. `LogLevelRoundTrip` states that parsing it back gives the level |
| Log.LogLevelRoundTrip | src/logging/src/k2/logging/FormattingUtils.h:229-232 | printing a level and parsing the text between the braces gives the level back |
| Log.UpperCaseLevelRejected | src/logging/src/k2/logging/FormattingUtils.h:222-227 | names are matched exactly: `INFO` is refused with the "unsupported value" error, while `Info` parses to Info |
| Log.LogRegistry.constructor | src/logging/src/k2/logging/Log.h:138-149 | a thread starts at level Info with no overrides and no loggers |
| Log.Logger.constructor | src/logging/src/k2/logging/Log.h:152-161 | a logger is created only under a name not yet registered, and then maps that name to itself. It adopts the pending override for its name, or stays NotSet, and leaves the overrides and the global level unchanged |
| Log.Logger.Destroy | src/logging/src/k2/logging/Log.h:162-164 | the destructor erases exactly its own name from the registry and leaves `moduleLevels` untouched |
| Log.Logger.IsEnabledFor | src/logging/src/k2/logging/Log.h:166-171 | with module level NotSet the gate is `level >= threadLocalLogLevel`; with a module level set it is `level >= moduleLevel` |
| Log.Logger.Emit | src/logging/src/k2/logging/Log.h:58-61 | a logging macro produces a record exactly when the gate is open, and the record carries the logger's name |
| Log.EnabledIsUpwardClosed | src/logging/src/k2/logging/Log.h:166-171 | a logger enabled for a level is enabled for every higher one |
| Log.ModuleLevelOverridesGlobal | src/logging/src/k2/logging/Log.h:167-168 | with a module level set, the global level does not affect the gate |
| Log.GlobalLevelGate | src/logging/src/k2/logging/Log.h:170-174 | with module level NotSet the gate opens at the global level; NotSet itself never passes a higher global level |
| Chrono.TruncMod | src/logging/src/k2/logging/Chrono.h:96-100 | `ldiv`/`div` quotient and remainder recompose the dividend. The remainder takes the dividend's sign and is smaller than the divisor in magnitude |
| Chrono.TruncDivTwice | src/logging/src/k2/logging/Chrono.h:39-62 | truncating division twice equals one truncating division by the product, for either sign |
| Chrono.Usec | src/logging/src/k2/logging/Chrono.h:45-47 | `usec(dur)` is the whole number of microseconds, rounded toward zero |
| Chrono.Msec | src/logging/src/k2/logging/Chrono.h:51-53 | `msec(dur)` is the whole number of milliseconds, rounded toward zero |
| Chrono.Sec | src/logging/src/k2/logging/Chrono.h:57-59 | `sec(dur)` is the whole number of seconds, rounded toward zero |
| Chrono.NsecAt | src/logging/src/k2/logging/Chrono.h:42-44 | a definition: `nsec(tp)` reads the time since the epoch as nanoseconds. `ResolutionsAgree` relates the four readings |
| Chrono.UsecAt | src/logging/src/k2/logging/Chrono.h:48-50 | a definition: `usec(tp)` is `usec` of the time since the epoch |
| Chrono.MsecAt | src/logging/src/k2/logging/Chrono.h:54-56 | a definition: `msec(tp)` is `msec` of the time since the epoch |
| Chrono.SecAt | src/logging/src/k2/logging/Chrono.h:60-62 | a definition: `sec(tp)` is `sec` of the time since the epoch |
| Chrono.ResolutionsAgree | src/logging/src/k2/logging/Chrono.h:39-62 | the time-point overloads agree with each other: each coarser reading is the truncation of the finer one |
| Chrono.MakeDeadline | src/logging/src/k2/logging/Chrono.h:67 | a deadline made at `now` lies exactly `dur` after `now` |
| Chrono.IsOver | src/logging/src/k2/logging/Chrono.h:77-79 | a definition: a deadline is over once the clock has reached it (`now >= deadline`). `GetRemaining` and `RemainingIsMonotone` state its relation to the remaining time |
| Chrono.GetRemaining | src/logging/src/k2/logging/Chrono.h:69-79 | the remaining time is never negative and is zero exactly when the deadline is over; otherwise it is the time left until the deadline |
| Chrono.RemainingIsMonotone | src/logging/src/k2/logging/Chrono.h:69-79 | the remaining time never grows as the clock advances, and a deadline once over stays over |
| Chrono.FreshDeadline | src/logging/src/k2/logging/Chrono.h:67-79 | a fresh deadline has its whole duration left (none when the duration is not positive), and is over exactly when the duration is not positive |
| Chrono.ToUnsigned | src/logging/src/k2/logging/Chrono.h:101 | narrowing to an unsigned field keeps the value modulo the field's range and leaves values in range unchanged |
| Chrono.ToInt32 | src/logging/src/k2/logging/Chrono.h:99 | the `(int)` cast lands in the 32-bit range and leaves values in range unchanged |
| Chrono.BreakDown | src/logging/src/k2/logging/Chrono.h:95-101 | a definition: the chain of truncating `ldiv`/`div` calls on the microsecond count, with the `(int)` cast of the minutes quotient and each part narrowed to its field type. `TimestampBounds` and `TimestampReconstruction` state what it gives |
| Chrono.ToTimestamp | src/logging/src/k2/logging/Chrono.h:94-102 | a definition: `toTimestamp_ts(tp)` breaks down `usec(tp)`. `TimestampBounds`, `TimestampReconstruction` and `DaysWrapAfter16Bits` state its properties |
| Chrono.TimestampBounds | src/logging/src/k2/logging/Chrono.h:94-102 | for any time point a 64-bit clock holds (not before the epoch), micros < 1000, millis < 1000, secs < 60, mins < 60 and hours < 24 |
| Chrono.TimestampReconstruction | src/logging/src/k2/logging/Chrono.h:94-102 | while the day count fits 16 bits, `((((days*24+hours)*60+mins)*60+secs)*1000+millis)*1000+micros` is the microsecond count |
| Chrono.DaysWrapAfter16Bits | src/logging/src/k2/logging/Chrono.h:101 | past 65536 days the day field wraps to 0 |
| Chrono.Digits | src/logging/src/k2/logging/Chrono.h:115 | a number prints as at least one decimal digit |
| Chrono.DigitsRoundTrip | src/logging/src/k2/logging/Chrono.h:115 | a number's printed digits read back as the number |
| Chrono.Pad | src/logging/src/k2/logging/Chrono.h:115 | zero-padded output consists only of digits |
| Chrono.PadExact | src/logging/src/k2/logging/Chrono.h:115 | a value below `10^width` pads to exactly `width` digits that read back as the value |
| Chrono.TimestampLayout | src/logging/src/k2/logging/Chrono.h:114-116 | for a day count below 10000 (and the other fields within their widths), a timestamp prints as 21 characters with `:` `:` `:` `.` `.` at fixed places and digits elsewhere, and every field reads back as its value |
| Chrono.FormatTimestamp | src/logging/src/k2/logging/Chrono.h:107-116 | a definition: `{:04}:{:02}:{:02}:{:02}.{:03}.{:03}` over days, hours, minutes, seconds, milliseconds and microseconds. `TimestampLayout` and `TimestampLayoutAnyDay` state its layout |
| Chrono.TimestampLayoutAnyDay | src/logging/src/k2/logging/Chrono.h:91-116 | for any day count, the 16-bit field's 10000..65535 included, a timestamp prints as the `{:04}` day field followed by a 17-character tail. The day field is four characters exactly below 10000 and five for the larger 16-bit values, so such a timestamp has 22 characters. It reads back as the day count, and the tail is the one the day-0 timestamp prints, so every other field reads back exactly |
| Chrono.DayField | src/logging/src/k2/logging/Chrono.h:115 | the `{:04}` day field has at least four characters, exactly four below 10000 and five from 10000 to 65535, and reads back as the day count |
| Chrono.TailLayout | src/logging/src/k2/logging/Chrono.h:115 | the text after the day field has 17 characters, so the separators and other fields sit at fixed places after it, and it reads back as the timestamp's other fields |
| Chrono.ZeroDayLayout | src/logging/src/k2/logging/Chrono.h:115 | a day-0 timestamp prints starting with `0000:` and reads back as itself |
| Chrono.ShortDurationParts | src/logging/src/k2/logging/Chrono.h:94-102 | a non-negative duration shorter than a day breaks down to day 0, with each part within its printed width, and recomposes to its microseconds |
| Chrono.FormatTimePoint | src/logging/src/k2/logging/Chrono.h:147-158 | a definition: a time point prints as the timestamp `toTimestamp_ts` gives for it |
| Chrono.FormatDuration | src/logging/src/k2/logging/Chrono.h:119-130 | a definition: a clock duration prints as the time point `epoch + dur`. `ShortDurationLayout` states its layout |
| Chrono.FormatDurationOf | src/logging/src/k2/logging/Chrono.h:134-145 | a definition: a `duration<X, Y>` of whole-nanosecond ticks is converted to clock nanoseconds and printed as `epoch + dur`. `MillisecondDurationLayout` states its layout for milliseconds |
| Chrono.ShortDurationLayout | src/logging/src/k2/logging/Chrono.h:126-129 | a duration prints as the timestamp of epoch + duration: below a day it starts with `0000:`, and its fields read back as its microseconds |
| Chrono.MillisecondDurationLayout | src/logging/src/k2/logging/Chrono.h:134-145 | a `duration<X, milli>` is converted to nanoseconds and printed as epoch + duration. Below a day its fields read back as the milliseconds, with microsecond field 0 |
| FormattingUtils.CombineStep | src/logging/src/k2/logging/FormattingUtils.h:63 | a definition: one `hash_combine_seed` step, `seed ^ (h + 0x9e3779b9 + (seed << 6) + (seed >> 2))` on 64-bit words with wrap-around |
| FormattingUtils.CombineAll | src/logging/src/k2/logging/FormattingUtils.h:55-65 | a definition: the seed after one combine step per argument, first argument first, and the seed itself for no arguments. `HashCombineSeed` is proved against it, and `CombineAllAppend` states that it is a left fold |
| FormattingUtils.HashCombineSeed | src/logging/src/k2/logging/FormattingUtils.h:55-65 | the seed is folded with one wrap-around combine step per argument, left to right; no arguments leave the seed unchanged |
| FormattingUtils.HashCombine | src/logging/src/k2/logging/FormattingUtils.h:69-73 | the fold starts from seed 0; a single argument gives `hash(v) + 0x9e3779b9` modulo 2^64 |
| FormattingUtils.SingleArgumentHash | src/logging/src/k2/logging/FormattingUtils.h:63 | one argument from seed 0 gives its hash plus the magic constant, modulo 2^64 |
| FormattingUtils.CombineAllAppend | src/logging/src/k2/logging/FormattingUtils.h:61-65 | the fold is a left fold: folding a concatenation continues from the first part's seed |
| FormattingUtils.ArgumentOrderMatters | src/logging/src/k2/logging/FormattingUtils.h:62-72 | two hashes combined in different orders give different seeds |
| FormattingUtils.EnumFromStr | src/logging/src/k2/logging/FormattingUtils.h:222-227 | `FromStr` succeeds exactly for a name in the table and gives its position; any other string throws "unsupported value:… in enum …" |
| FormattingUtils.FromStrRoundTrip | src/logging/src/k2/logging/FormattingUtils.h:220-227 | with distinct names, parsing an enumerator's name gives back its ordinal |
| FormattingUtils.EnumToString | src/logging/src/k2/logging/FormattingUtils.h:229-232 | an enumerator prints as its table name in braces |
| FormattingUtils.EnumToStringInjective | src/logging/src/k2/logging/FormattingUtils.h:229-232 | distinct enumerators print differently, and parsing the text between the braces gives the enumerator back |
| FormattingUtils.Join | src/logging/src/k2/logging/FormattingUtils.h:133 | a definition: `fmt::join` for strings, with the parts separated by the separator and none before the first or after the last. `JoinSnoc` and `JoinEndsWithLast` state its properties |
| FormattingUtils.JoinSnoc | src/logging/src/k2/logging/FormattingUtils.h:133 | a join of one more part adds one separator and that part |
| FormattingUtils.JoinEndsWithLast | src/logging/src/k2/logging/FormattingUtils.h:133 | a join ends with its last part |
| FormattingUtils.FormatOptional | src/logging/src/k2/logging/FormattingUtils.h:334-349 | an optional prints in braces: the value when present, `{}` when empty |
| FormattingUtils.OptionalEmptyIsAmbiguous | src/logging/src/k2/logging/FormattingUtils.h:343-347 | an empty optional and one holding an empty printout print the same |
| FormattingUtils.SortedBools | src/logging/src/k2/logging/FormattingUtils.h:300 | a `std::set<bool>` is iterated in ascending order over exactly its elements |
| FormattingUtils.SortedBoolsSize | src/logging/src/k2/logging/FormattingUtils.h:300-306 | the iteration visits each element once |
| FormattingUtils.WriteBoolItems | src/logging/src/k2/logging/FormattingUtils.h:299-306 | the formatter loop writes, for each element in order, the element alone when the counter marks it last, and otherwise the element and `", "` |
| FormattingUtils.FormatBoolSet | src/logging/src/k2/logging/FormattingUtils.h:290-309 | the set formatter as written, in which the counter is never incremented |
| FormattingUtils.FormatBoolSetCorrected | src/logging/src/k2/logging/FormattingUtils.h:290-309 | with the counter incremented, the formatter prints the elements joined by `", "` in braces |
| FormattingUtils.CountingItemsJoin | src/logging/src/k2/logging/FormattingUtils.h:299-306 | with the counter advancing, the loop writes exactly a `", "`-join of the elements |
| FormattingUtils.BoolSetBraces | src/logging/src/k2/logging/FormattingUtils.h:298-307 | the output is always wrapped in `{`…`}` |
| FormattingUtils.BoolSetSmallSetsAgree | src/logging/src/k2/logging/FormattingUtils.h:298-307 | on the empty and the one-element sets the formatter as written prints the intended text |
| FormattingUtils.BoolSetTwoAsWritten | src/logging/src/k2/logging/FormattingUtils.h:298-307 | as written, `{false, true}` prints `{false, true, }` |
| FormattingUtils.BoolSetTwoIntended | src/logging/src/k2/logging/FormattingUtils.h:298-307 | as intended, `{false, true}` prints `{false, true}` |
| FormattingUtils.BoolSetIntendedNoTrailingSeparator | src/logging/src/k2/logging/FormattingUtils.h:298-307 | the corrected output never ends with `", }"` |
| ExpressionDto.OperationOrdinal | src/skvhttpclient/src/skvhttp/dto/Expression.h:51-67 | `to_integral` of an operation indexes the operation name table |
| ExpressionDto.FromOperationOrdinal | src/skvhttpclient/src/skvhttp/dto/Expression.h:51-67 | the operation at a declaration position has that ordinal |
| ExpressionDto.OperationFromStr | src/skvhttpclient/src/skvhttp/dto/Expression.h:51-67 | `OperationFromStr` succeeds exactly for the fifteen operation names and gives the operation of that name |
| ExpressionDto.OperationRoundTrip | src/skvhttpclient/src/skvhttp/dto/Expression.h:51-67 | every operation's printed name parses back to it |
| ExpressionDto.Get | src/skvhttpclient/src/skvhttp/dto/Expression.h:83-96 | a type mismatch is reported first, even for a reference; then a reference is a deserialization error; otherwise the decoded literal is returned, or a decode failure is a deserialization error |
| ExpressionDto.MakeValueLiteral | src/skvhttpclient/src/skvhttp/dto/Expression.h:172-184 | a NaN is refused with "NaN type in serialization". Anything else becomes an unnamed, non-reference value of the literal's type holding its encoding |
| ExpressionDto.MakeValueReference | src/skvhttpclient/src/skvhttp/dto/Expression.h:187-191 | a reference value has the given name, type NOT_KNOWN and an empty literal; it is a reference exactly when the name is non-empty |
| ExpressionDto.Value.IsReference | src/skvhttpclient/src/skvhttp/dto/Expression.h:77 | a definition: a value is a reference exactly when its field name is non-empty. `MakeValueReference`, `GetOfReference` and `Get` use it |
| ExpressionDto.GetOfLiteral | src/skvhttpclient/src/skvhttp/dto/Expression.h:83-96 | with a round-tripping codec, reading a literal at its own type gives the value back, and reading it at any other type is a type mismatch |
| ExpressionDto.GetOfReference | src/skvhttpclient/src/skvhttp/dto/Expression.h:84-89 | a reference never reads as a value: at NOT_KNOWN it is a deserialization error, and at any other type a type mismatch |
| ExpressionDto.MakeExpression | src/skvhttpclient/src/skvhttp/dto/Expression.h:194-200 | an expression holds exactly the given operation and children; it is the default expression (UNKNOWN, no children) exactly when given those |

## Left out

- **I/O.** Socket and RDMA I/O (`listenTCP`, `connectTCP`, `listenRRDMA`, `connectRRDMA`) is left out. Each is a single call into the engine's network stacks.
- **Futures and fan-out.** Seastar futures, `invoke_on_all`, `submit_to` and `when_all_succeed` are not modelled. Each fan-out is one step whose all-shards outcome comes from the environment, and the logging statics are those of one shard. Cross-shard concurrency and interleaving are not captured.
- **At-exit order.** The order in which seastar runs the at-exit hooks is runtime behaviour, not code here. `ExitOrderUnderLifo` states the reverse-run order only as an assumption. The seven subsystem hooks are names: what each subsystem's `stop()` does is not modelled, so `App.RunExitHook` gives them no applet to run. The two applet hooks are modelled in full.
- **Foreign libraries.** Prometheus start-up, the `ConfigVar`/`ConfigDuration` lookups, the configuration distribution and boost program-options parsing are left out. The parsed options are given as an `Options` value.
- **Termination and start-up logging.** What `or_terminate` does with a failed start-up (it ends the process) is not modelled. The start-up log lines are left out too.
- **Printing.** `fmt::print`, `fflush`, `DO_K2LOG_LEVEL_FMT`, `procName`, `threadId`, `type_name` and the boost decimal formatters are left out. They are printing, process identity and compiler-specific output.
- **Compile-out.** The compile-time removal of `K2LOG_V` when verbose logging is off is a preprocessor switch, and is not modelled.
- **Other formatters.** The `std::shared_ptr` formatter and the hex-encoded `Value` formatter are not modelled, and neither is the `std::unordered_set<bool>` formatter. The last has the same loop as the `std::set<bool>` one (see Findings), over an unspecified iteration order.
- **Expression evaluation.** `Expression::evaluate`, the per-operation handlers and `copyPayloads` are declared but not defined in `Expression.h`, so they are not part of this model.
- **Type parameters.** `TToFieldType<T>()` becomes an explicit field-type tag argument. The field-type enumerators follow the SKV field-type enum, which is not part of this model.
- **Parameterised externals.**
  - MsgPack encoding and decoding are parameter functions.
  - The NaN test is a parameter predicate, because floating point is not modelled.
  - The `K2ASSERT` on the writer's flush is taken to succeed.
  - `std::hash<T>` is a parameter function to 64-bit words.
- **`FromStr` matching.** `_K2_ENUM_IF_STMT` is defined in a file that is not part of this model. `EnumFromStr` and the enum parsers built on it assume an exact match against the name table. Under that assumption, names in another case are rejected. Among them are the upper-case `VERBOSE|DEBUG|INFO|WARN|ERROR|FATAL` the `--log_level` help text lists (`src/k2/appbase/Appbase.cpp:53`): `Log.UpperCaseLevelRejected` states it for `INFO`.
- **Seastar constants.** `VirtualNetwork.SegmentSizes` rests on seastar's constants, defined in files that are not part of this model. They are taken as: MTU 1500; minimal TCP, IPv4 and Ethernet headers of 20, 20 and 14 bytes; `RDMAStack::RCDataSize` 8192.
- **Observers.** The low-memory observers are opaque identities (`Callback(id)`), and what a registered callback does is not modelled.
- **Clock.** `steady_clock::now()` is a parameter, and the clock is not required to advance.
- Chrono.MakeDeadline, Chrono.GetRemaining: `Duration` and time points are unbounded integers. `now + dur` and `deadline - now` are exact here, while in the source they are signed 64-bit nanosecond arithmetic, whose overflow is undefined behaviour. The model gives a result where the source has none, for example a deadline past `Int64Max`. The same applies to the tick conversion `count * nanosPerTick` in `Chrono.FormatDurationOf`.
- **Duration ratios.** The generic `duration<X, Y>` formatter is modelled for tick lengths that are whole nanoseconds. Ratios finer than a nanosecond, and the floating-point counts `duration_cast` would truncate, are not modelled.
- Chrono.TimestampBounds: the field bounds are stated for time points not before the clock's epoch. For negative counts, C++ truncation gives negative parts, whose narrowing wraps; the model computes that wrap but states no bound for it.

## Findings

| source | as written | input that shows it | evidently intended | confidence | as-written member | corrected member |
|---|---|---|---|---|---|---|
| src/logging/src/k2/logging/FormattingUtils.h:299-306 | the counter `processed` is never incremented, so every element of a set with two elements is followed by `", "`, the last one included | `std::set<bool>{false, true}` prints `{false, true, }` | the counter goes up once per element, so the elements are joined by `", "`: `{false, true}` | not executed | FormattingUtils.BoolSetTwoAsWritten | FormattingUtils.FormatBoolSetCorrected |

The as-written formatter is `FormattingUtils.FormatBoolSet` (specified by `BoolSetAsWritten`). The corrected one is `FormattingUtils.FormatBoolSetCorrected` (specified by `BoolSetIntended`). Their properties are proved in `BoolSetTwoIntended` and `BoolSetIntendedNoTrailingSeparator`. `BoolSetSmallSetsAgree` shows the two agree on every set of at most one element.
