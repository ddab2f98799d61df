# Geneva Sky Logger — a verified model of `Logger`

This project models the core of the Geneva Sky Logger's `io.terav.geneva.Logger` class in Dafny and proves what it does:

- **The channel table.** A logger owns a fixed array of `LinkedStream` slots. Each slot holds an optional `BufferedOutputStream` wrapped around a caller's sink, a threshold `Level` and a dirty flag. The table is changed by `linkStream` and `unlinkStream`.
- **The record pipeline of `log`.** Placeholders `{0}`, `{1}`, … are substituted in order with `String.replace`. Then five control characters are escaped, the `[timestamp|thread] <LEVEL> ` prefix is prepended and a newline is appended.
- **The fan-out.** The record is delivered to every slot whose threshold admits the level. An `IOException` from one slot is kept in the single last-error slot, which `pullError` reads and clears.
- **`LinkedStream.write`.** Bytes go to the slot's buffer, and the dirty flag is raised.
- **The `LogStream` line accumulator.** It sits behind the info, error and trace print streams (Logger.java:42-44; the trace stream receives `printStackTrace` output at line 153), turning bytes into lines that are fed back into `log`.
- **One pass of the flusher.** This is the loop body of `LogFlusher.run`, also used by `forceFlush`. It clears each dirty flag and flushes that slot's buffer.

Modules:

- `Options` holds `Option`.
- `Levels` holds the `Level` enum and its declaration rank.
- `Format` holds `String.replace` as a function, placeholder substitution, escaping and the record.
- `Routing` holds slots as values, plus the fan-out and the flush pass as functions of slot sequences.
- `Lines` holds the accumulator as a step function over Java bytes.
- `Logging` holds the imperative classes `Buffered`, `LinkedStream`, `Logger` and `LogStream`. Their methods are proved against the functions of `Routing` and `Lines`. The ghost field `Logger.Slots` is the value view of the slot array.

Sinks are compared only by identity, so a sink is any `object`. A `BufferedOutputStream` is modelled as two strings:

- `pending` holds the bytes it has accepted but not flushed;
- `sent` holds the bytes flushes have handed to the sink.

I/O failures come from oracles supplied by the caller:

- `Env.fault(i)` says at which byte of a record slot `i`'s stream throws;
- `fails(i)` says whether slot `i`'s flush throws.

The timestamp and the thread name are opaque strings in `Env`.

Two behaviours of the code differ from what its documentation suggests, and the model follows the code:

- **The "already linked" check never fires.** `linkStream` stores a new `BufferedOutputStream(out)`, then compares that stored wrapper with the raw `out`. So linking the same sink twice binds two slots (`Logging.LinkTwiceTakesTwoSlots`).
- **`unlinkStream` never unbinds such a sink**, for the same reason (`Logging.UnlinkMissesWrappedSink`).

A dirty slot whose stream is null makes the flusher throw `NullPointerException`. The flag is cleared first, and the exception is not caught, so the pass ends at that slot. `Logger.FlushPass` returns that slot's index. In `LogFlusher.run` the uncaught exception also ends the flusher thread itself, so no later pass runs; in `forceFlush` it ends the shutdown hook. Through the public API this state cannot arise: the stored wrapper never leaves the logger, so `unlinkStream` never matches it and a bound slot is never unbound. The model's clients can read a slot's stored wrapper and pass it to `UnlinkStream`, which is why the case is kept.

## Model

| member | source | states |
|---|---|---|
| Levels.Rank | io/terav/geneva/Logger.java:186-215 | every level's ordinal is below 7 |
| Levels.Name | io/terav/geneva/Logger.java:130 | `Level.toString()`: the name a level prints as is non-empty and all upper-case letters, so it cannot contain a control character or newline |
| Levels.RankInjective | io/terav/geneva/Logger.java:186-215 | two levels have the same ordinal exactly when they are the same level |
| Levels.DeclarationOrder | io/terav/geneva/Logger.java:186-215 | ordinals follow declaration order, STACKTRACE lowest and FATAL highest |
| Format.Replace | io/terav/geneva/Logger.java:132-134 | `String.replace` for a non-empty target, scanning left to right; replacing a target by itself changes nothing, an equal-length replacement keeps the length, and a replacement at least as long as the target never shortens the string |
| Format.ReplaceAbsent | io/terav/geneva/Logger.java:132 | `replace` leaves a string without an occurrence of the target unchanged |
| Format.ReplaceFront | io/terav/geneva/Logger.java:132 | an occurrence at the front is replaced, and scanning resumes after it, so occurrences do not overlap |
| Format.ReplaceCharFree | io/terav/geneva/Logger.java:132 | a target preceded by text free of its first character is replaced exactly once, at its position |
| Format.NoOccurrenceBySecondChar | io/terav/geneva/Logger.java:132 | a string lacking the second character of a target does not contain the target |
| Format.ReplaceOnlyFront | io/terav/geneva/Logger.java:132 | a target at the front, followed by text lacking its second character, is replaced there and nowhere else |
| Format.ReplaceCharCons | io/terav/geneva/Logger.java:134 | replacing a single character works character by character |
| Format.ReplaceCharConcat | io/terav/geneva/Logger.java:134 | replacing a single character distributes over concatenation |
| Format.ReplaceCharMissing | io/terav/geneva/Logger.java:134 | replacing a character that does not occur changes nothing |
| Format.Decimal | io/terav/geneva/Logger.java:132 | the decimal text of an index is non-empty and all digits |
| Format.Placeholder | io/terav/geneva/Logger.java:132 | the placeholder of an index is `{`, at least one more character, then `}` |
| Format.SubstituteParams | io/terav/geneva/Logger.java:131-133 | the loop result is the ordered fold that replaces `{i}` by `params[i]` for i = 0, 1, … in turn |
| Format.SubstitutedWithoutPlaceholders | io/terav/geneva/Logger.java:131-133 | a template containing none of the placeholders `{0}` … `{k-1}` comes out unchanged |
| Format.FirstRoundExample | io/terav/geneva/Logger.java:132 | the first round turns `{0} and {1}` into `x and {1}` |
| Format.SubstitutedTwo | io/terav/geneva/Logger.java:131-133 | with two parameters the loop performs exactly two replacements, `{0}` first and then `{1}` |
| Format.SecondRoundExample | io/terav/geneva/Logger.java:132 | the second round turns `x and {1}` into `x and 7` |
| Format.SubstitutionExample | io/terav/geneva/Logger.java:120 | `{0} and {1}` with `["x", "7"]` gives `x and 7` |
| Format.DecimalInjective | io/terav/geneva/Logger.java:132 | two indices with the same decimal text are equal |
| Format.PlaceholderNotInside | io/terav/geneva/Logger.java:132 | the placeholder of one index never occurs inside the placeholder of another |
| Format.PlaceholderNotStraddledBefore | io/terav/geneva/Logger.java:132 | no placeholder occurrence runs from the text before another index's placeholder into it |
| Format.PlaceholderNotStraddledAfter | io/terav/geneva/Logger.java:132 | no placeholder occurrence starts inside another index's placeholder and runs past its end |
| Format.NoStraddleShift | io/terav/geneva/Logger.java:132 | dropping characters from the front of the left half keeps the boundary free of straddling occurrences |
| Format.ReplaceSplit | io/terav/geneva/Logger.java:132 | when no occurrence straddles the boundary, `replace` on a concatenation is the concatenation of `replace` on each half |
| Format.ReplaceAroundAlone | io/terav/geneva/Logger.java:132 | a piece free of the target and not straddled by it is carried over verbatim while the text on each side is replaced |
| Format.ReplaceAroundPlaceholder | io/terav/geneva/Logger.java:132 | round i leaves the placeholder of any other index in place and replaces the text on either side of it independently |
| Format.OutOfRangeSurvives | io/terav/geneva/Logger.java:131-133 | a placeholder whose index is not below the number of rounds survives verbatim in any template, with the text on either side substituted as if it stood alone; for the full loop this covers every index not below the parameter count |
| Format.ChainedSubstitutionExample | io/terav/geneva/Logger.java:131-133 | text substituted for `{0}` is itself rewritten by a later index |
| Format.EscapeChain | io/terav/geneva/Logger.java:134 | the five chained `replace` calls of the escaping step; escaping never shortens the body |
| Format.EscapeChar | io/terav/geneva/Logger.java:134 | each character escapes to a non-empty string |
| Format.EscapeChainConcat | io/terav/geneva/Logger.java:134 | the five chained replacements distribute over concatenation |
| Format.ChainTail | io/terav/geneva/Logger.java:134 | the last four replacements leave text without control characters unchanged |
| Format.EscapeChainChar | io/terav/geneva/Logger.java:134 | the chain maps one character to its escape: `\n`→`\n` text, `\r`→`\r` text, tab→four spaces, backspace→`\b` text, ESC→`\e` text, anything else to itself |
| Format.EscapeChainIsEscaped | io/terav/geneva/Logger.java:134 | the chain of five `replace` calls equals the per-character escape of the body |
| Format.EscapedHasNoControl | io/terav/geneva/Logger.java:134 | an escaped body contains none of newline, carriage return, tab, backspace or ESC |
| Format.EscapedIdentity | io/terav/geneva/Logger.java:134 | a body without those characters is not changed by escaping |
| Format.PrefixHasNoNewline | io/terav/geneva/Logger.java:127-130 | with a newline-free timestamp and thread name, the prefix of timestamp, thread name and level contains no newline |
| Format.RecordIsOneLine | io/terav/geneva/Logger.java:129-135 | with a newline-free timestamp and thread name, the record is prefix, escaped body and `\n`, and its only newline is the last character |
| Format.Prefix | io/terav/geneva/Logger.java:129-130 | the `[timestamp|thread] <LEVEL> ` prefix is exactly seven characters longer than the timestamp, thread name and level name together, opens with `[` and ends with a space |
| Format.Line | io/terav/geneva/Logger.java:129-135 | the record for a substituted body ends with a newline and is at least as long as the prefix, the body and that newline |
| Format.Record | io/terav/geneva/Logger.java:126-135 | the record `log(level, msg, params)` writes ends with a newline; without parameters the template is used as the body unchanged |
| Routing.Admits | io/terav/geneva/Logger.java:137 | the threshold test: a slot always admits a record at its own threshold level, and every slot admits `FATAL` |
| Routing.Receives | io/terav/geneva/Logger.java:221-222 | only a bound slot receives a record, and a bound slot receives every record at its own threshold level |
| Routing.Accepted | io/terav/geneva/Logger.java:224-225 | a stream accepts a prefix of the record, and all of it when it does not throw |
| Routing.Thrown | io/terav/geneva/Logger.java:224-225 | a write throws exactly when the stream accepts less than the whole record |
| Routing.Written | io/terav/geneva/Logger.java:221-229 | a write keeps the slot's threshold, its binding and the bytes its stream has already sent |
| Routing.Deliver | io/terav/geneva/Logger.java:137-141 | one iteration of the fan-out keeps the slot's threshold and binding and never clears a dirty flag |
| Routing.Fanout | io/terav/geneva/Logger.java:136-143 | the fan-out keeps the slot count and delivers to each slot independently |
| Routing.RoutingRule | io/terav/geneva/Logger.java:136-139 | a slot that is unbound or whose threshold ranks above the level is left unchanged, and a receiving slot has the record appended and is flagged dirty |
| Routing.RoutingMonotone | io/terav/geneva/Logger.java:137 | a slot receiving at one level receives at every level ranked at least as high |
| Routing.FanoutIsolatesFailures | io/terav/geneva/Logger.java:138-142 | what happens to slot m depends on slot m's own outcome only, and a failure elsewhere does not skip it |
| Routing.FanoutUpTo | io/terav/geneva/Logger.java:136-142 | after the first k iterations of the loop, exactly the first k slots have received their delivery and the rest are as they were |
| Routing.ErrorStep | io/terav/geneva/Logger.java:138-142 | after one iteration the error slot holds its old value or the exception of a slot that received the record and failed; a recorded error is never cleared |
| Routing.ErrorAfter | io/terav/geneva/Logger.java:136-143 | the fan-out never clears a recorded error |
| Routing.ErrorAfterWithoutFailure | io/terav/geneva/Logger.java:138-142 | when no write fails, the last-error slot keeps its previous value |
| Routing.ErrorAfterLastFailure | io/terav/geneva/Logger.java:138-142 | after the loop, the last-error slot holds the exception of the last slot whose write failed |
| Routing.PartialWriteLeavesSlotClean | io/terav/geneva/Logger.java:224-227 | for any receiving slot, a write that throws at byte n appends exactly the first n bytes and leaves threshold, sent bytes and dirty flag as they were |
| Routing.FlushSlot | io/terav/geneva/Logger.java:266-270 | one slot's flush step leaves the slot clean and keeps its threshold |
| Routing.Flushed | io/terav/geneva/Logger.java:265-271 | one pass keeps the slot count and leaves every slot after the one where it stops untouched |
| Routing.FlushStop | io/terav/geneva/Logger.java:265-271 | the pass stops at the first dirty slot without a stream, and every earlier slot is not such a slot |
| Routing.FlushSlotSpec | io/terav/geneva/Logger.java:266-270 | flushing a slot clears its flag, touches a clean slot not at all, keeps threshold and binding, loses and duplicates no byte, and leaves nothing pending when it succeeds |
| Routing.CompletedPassCleansAll | io/terav/geneva/Logger.java:275-281 | a pass that completes leaves every slot clean, leaves clean slots unchanged and hands on all bytes of each dirty slot whose flush succeeded |
| Lines.ToChar | io/terav/geneva/Logger.java:248-250 | the cast of a byte to char is a newline exactly when the byte is 10 |
| Lines.Feed | io/terav/geneva/Logger.java:242-252 | a newline emits the pending line (if any) and resets it; another byte is appended, emitting nothing while the line stays under 1023 and emitting the line at once when it reaches 1023; the pending line stays absent or non-empty, under 1023 and newline-free, and every emitted line is non-empty, at most 1023 and newline-free |
| Lines.Run | io/terav/geneva/Logger.java:242-257 | over any run of writes, the pending-line invariant holds and every emitted line is a valid line |
| Lines.BareNewlineEmitsNothing | io/terav/geneva/Logger.java:243-245 | a newline with no pending line emits nothing |
| Lines.CapEmitsAtOnce | io/terav/geneva/Logger.java:251 | a line reaching 1023 characters is emitted at once, without waiting for a newline |
| Lines.FeedPreservesText | io/terav/geneva/Logger.java:242-252 | one write neither loses nor duplicates a character: emitted text plus pending text grows by the byte's character, or by nothing for a newline |
| Lines.RunPreservesText | io/terav/geneva/Logger.java:242-257 | the emitted lines, concatenated and followed by the pending line, are the old pending line followed by the input with its newlines removed |
| Lines.RunBelowCapEmitsNothing | io/terav/geneva/Logger.java:247-251 | bytes without a newline that keep the line under 1023 emit nothing and are appended to the pending line |
| Lines.RunAppend | io/terav/geneva/Logger.java:242-252 | writing a + b is writing a, then b from the pending line a leaves |
| Lines.ShortLineEmittedWhole | io/terav/geneva/Logger.java:242-257 | a line of fewer than 1023 characters followed by a newline is emitted as exactly that line, with nothing left pending |
| Logging.Buffered.constructor | io/terav/geneva/Logger.java:72 | a new wrapper targets the given sink and holds no bytes |
| Logging.Buffered.Put | io/terav/geneva/Logger.java:225 | a byte is buffered unless the stream throws, in which case nothing changes |
| Logging.Buffered.Flush | io/terav/geneva/Logger.java:269 | a successful flush moves every buffered byte, in order, to the sink; a failed one is modelled as changing nothing |
| Logging.LinkedStream.constructor | io/terav/geneva/Logger.java:217-219 | a new slot is unbound, has threshold INFO and is clean |
| Logging.LinkedStream.Write | io/terav/geneva/Logger.java:221-229 | an unbound slot is untouched; a bound slot's buffer gains the accepted bytes in order, and it is flagged dirty exactly when no byte was refused; the exception raised is the refused byte's |
| Logging.NewChannels | io/terav/geneva/Logger.java:38-41 | the constructor's loop makes n fresh, distinct slots, each unbound |
| Logging.Logger.constructor | io/terav/geneva/Logger.java:37-41 | a logger with n channels has n distinct slots, all unbound with threshold INFO and clean, and no recorded error |
| Logging.LinkSpot | io/terav/geneva/Logger.java:69-75 | the scan over the stored streams stops at the first slot that is unbound or holds exactly the argument, and every slot before it is bound to something else |
| Logging.Logger.LinkStream | io/terav/geneva/Logger.java:64-76 | a null sink or level throws its message before anything changes; otherwise the first unbound slot, unless a slot holding the argument itself comes first, gets a fresh wrapper around the sink and the threshold, every other slot is unchanged, and a full table is unchanged |
| Logging.Logger.Bind | io/terav/geneva/Logger.java:71-73 | an unbound slot receives a fresh wrapper targeting the sink and the threshold; its buffer is empty and no other slot changes |
| Logging.Logger.UnlinkStream | io/terav/geneva/Logger.java:82-89 | a null argument throws; otherwise exactly the slots holding the argument itself become unbound, keeping threshold, flag and slot count, and every other slot is unchanged |
| Logging.Logger.Unbind | io/terav/geneva/Logger.java:86-87 | the slot loses its stream and keeps threshold and flag; no other slot changes |
| Logging.Logger.PullError | io/terav/geneva/Logger.java:109-113 | the recorded error is returned and the slot is cleared; the channels are unchanged |
| Logging.Logger.Log | io/terav/geneva/Logger.java:126-143 | the slots become the fan-out of the formatted record, and the last-error slot holds the last failure, or its old value when no write fails; no binding changes |
| Logging.Logger.Broadcast | io/terav/geneva/Logger.java:136-142 | the loop over the slots yields the value-level fan-out and leaves the last failing slot's exception in the error slot; the stored streams keep their identity |
| Logging.Logger.WriteChannel | io/terav/geneva/Logger.java:137-142 | one iteration of the fan-out changes only slot i, by its delivery, and records the exception of a failing write |
| Logging.Logger.FlushPass | io/terav/geneva/Logger.java:265-271 | the slots become the value-level flush pass, the result names the slot where a null stream stopped it, and the last-error slot is unchanged |
| Logging.Logger.FlushChannel | io/terav/geneva/Logger.java:266-270 | one iteration of the pass changes only slot i, by its flush step, and reports a null stream on a dirty slot |
| Logging.LogStream.constructor | io/terav/geneva/Logger.java:238-240 | a new line stream has the given level and no pending line |
| Logging.LogStream.Write | io/terav/geneva/Logger.java:242-252 | the pending line evolves as one accumulator step, and an emitted line is logged at the stream's level exactly as `log(level, line)` would, without parameters; no binding changes |
| Logging.LogStream.FlushLine | io/terav/geneva/Logger.java:253-257 | the pending line, if any, is logged and reset; with none, the logger is unchanged; no binding changes |
| Logging.LinkTwiceTakesTwoSlots | io/terav/geneva/Logger.java:70-72 | linking one sink twice binds two slots through two distinct wrappers |
| Logging.UnlinkMissesWrappedSink | io/terav/geneva/Logger.java:86 | unlinking a sink that was linked through `linkStream` leaves its slot bound |
| Logging.PullErrorTwice | io/terav/geneva/Logger.java:109-113 | a second immediate `pullError` returns nothing |

## Left out

- The wall-clock timestamp, the `DateTimeFormatter` and the thread name (Logger.java:23, 127-130) are opaque strings supplied in `Env`. The dead `formatter.format` call at line 128 has no effect.
- The flusher thread is not modelled: its creation, daemon flag and name, `sleep(3000)`, `interrupt()` and the shutdown hook. Only one pass of its loop is modelled, and the same pass stands for `forceFlush`.
- `synchronized` blocks are dropped. The model is sequential.
- `BufferedOutputStream` internals are not modelled. This covers its automatic flush when its 8192-byte buffer fills, and the writing through to the sink. `sent` records what flushes hand on.
- The source of `IOException`s is not modelled. Failures come from the `Env.fault` and `fails` oracles, and their content is an opaque `IoError`.
- `String.getBytes()` with the platform charset is not modelled: records are written to the slots as characters. `Object.toString` on parameters is not modelled either: parameters are strings.
- Null `params` elements and a null `msg` passed to `log` raise `NullPointerException` in the source. A null level is printed as `null` at line 130 and throws only at the threshold test at line 137, so with no channel nothing is thrown. The model's types exclude all three. `linkStream` models its own null checks because they carry messages.
- A negative channel count makes `new LinkedStream[channels]` throw. The model takes `n: nat`.
- These parts are not modelled:
  - the `PrintStream` wrappers and their getters (42-44, 94-103);
  - `log(Throwable, Level)` and `printStackTrace` (151-154);
  - the `debug`/`info`/`warn`/`error` convenience methods (159-182);
  - the no-argument constructor, which only calls `this(4)` (30-32);
  - the one-argument `linkStream`, which only passes `INFO` (55-57);
  - `LinkedStream.write(int)`, which wraps one byte in an array (231-233);
  - the unused `maxPrintable` field.
- `Logging.LogStream.Write` takes Java bytes (-128..127), which is what `PrintStream` hands over. Arbitrary `int` arguments to `write(int)` are not modelled.
- Re-entrant logging is not modelled. This is the case where a channel's sink is one of the logger's own print streams. A `LogStream` is kept outside the logger's representation.
- `Format.Replace` requires a non-empty target. The only targets the source uses are placeholders and single control characters, which are never empty.
- Logging.Buffered.Flush: a failing flush is modelled as all-or-nothing. `BufferedOutputStream.flush()` first writes its buffer to the sink and empties it, then calls the sink's `flush()`; when only that last call fails, the bytes have already been handed on. The `fails` oracle does not tell the two failure points apart, and the same holds for `Routing.FlushSlot`.
