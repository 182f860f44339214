# Karate step wrapper, modelled in Dafny

This project models `StepWrapper`, the class of the Karate test runner (its
Cucumber integration) that wraps one parsed Gherkin step of a scenario. It
covers three parts of that class:

- **Step text.** The display text of a step is the keyword followed directly by
  the name. If a doc string is attached, the text goes on with a triple-quote
  delimiter line, the raw value and a closing delimiter line. If a table is
  attached, it ends with a line break and the table exactly as it stands in the
  feature source. The feature's line-joining service returns that source.
- **Descriptor accessors.** These cover the trimmed prior text, its line count
  as `split("\n")` counts it, the zero-based start and end lines, the line count
  in Java `int` arithmetic, and the `method`/`soap` prefix test that marks an
  HTTP call.
- **`run`.** This method looks up the step's definition. A lookup that throws
  escapes the method. Otherwise it tells the reporter, if there is one, about
  the step and then the match, and runs the definition. A normal return gives a
  PASSED report and a result without failure. Any throwable is caught: it gives
  a FAILED report that carries the cause, one error-log line, and a result that
  carries the same cause.

Modules, one per concern:

| file | module | what |
|---|---|---|
| optional.dfy | `Optional` | Java null as `Option` |
| java_int.dfy | `JavaInt` | 32-bit `int` with explicit wrap-around |
| java_strings.dfy | `JavaStrings` | `startsWith`, `trim`, `StringUtils.trimToNull`, `split("\n")` |
| gherkin.dfy | `Gherkin` | the parser's step, the scenario's services, lookup and invocation outcomes |
| step_text.dfy | `StepText` | `getStepText` |
| step_wrapper.dfy | `StepWrapper` | the descriptor, its constructor and accessors |
| step_run.dfy | `StepRun` | `run`, its event trace and the protocol it follows |

The services the class calls are parameters of the model. These are the
feature's `joinLines`, `Glue.stepDefinitionMatch` and
`StepDefinitionMatch.runStep`. The model never looks inside them. The reporter
and the logger are modelled as the sequence of events `run` emits, in order.

Two independent definitions back the `run` contract. `StepRun.Effects` lists
the expected effects. `StepRun.Conforms` is a state machine
(`Begin → StepAnnounced → MatchAnnounced → ResultAnnounced → Logged`) that
accepts exactly the complete runs. `StepRun.ConformingCounts` proves that every
accepted trace holds exactly one result notification when a reporter is present
(none otherwise), and exactly one error log, only on failure.

## Model

| member | source | states |
|---|---|---|
| JavaStrings.StartsWith | karate-core/src/main/java/com/intuit/karate/cucumber/StepWrapper.java:75 | `startsWith` holds exactly when the prefix is no longer than the string and equals its first characters |
| JavaStrings.Trim | karate-core/src/main/java/com/intuit/karate/cucumber/StepWrapper.java:50 | the result has no blank (≤ ' ') character at either end; it is empty exactly when the input is all blank; the input is the result with only blank text before and after it |
| JavaStrings.TrimToNull | karate-core/src/main/java/com/intuit/karate/cucumber/StepWrapper.java:50 | the stored prior text is null exactly when the input is null or all blank; otherwise it is the non-empty trimmed input |
| JavaStrings.TrimUnique | karate-core/src/main/java/com/intuit/karate/cucumber/StepWrapper.java:50 | any split of a string into blank text, a part with no blank end, and blank text makes that middle part the trim result |
| JavaStrings.TrimIdempotent | karate-core/src/main/java/com/intuit/karate/cucumber/StepWrapper.java:50 | trimming a trimmed string changes nothing |
| JavaStrings.NewlineCount | karate-core/src/main/java/com/intuit/karate/cucumber/StepWrapper.java:98 | the newline count is zero exactly when the text holds no newline |
| JavaStrings.Segments | karate-core/src/main/java/com/intuit/karate/cucumber/StepWrapper.java:98 | splitting at every newline gives at least one piece, and no piece holds a newline |
| JavaStrings.JoinSegments | karate-core/src/main/java/com/intuit/karate/cucumber/StepWrapper.java:98 | joining the pieces with newlines gives back the original text |
| JavaStrings.SegmentsCount | karate-core/src/main/java/com/intuit/karate/cucumber/StepWrapper.java:98 | there is one more piece than there are newlines |
| JavaStrings.LastSegmentNonEmpty | karate-core/src/main/java/com/intuit/karate/cucumber/StepWrapper.java:98 | text that does not end in a newline has a non-empty last piece |
| JavaStrings.DropTrailingEmpty | karate-core/src/main/java/com/intuit/karate/cucumber/StepWrapper.java:98 | removing the trailing empty pieces leaves a prefix that ends in a non-empty piece or is empty; only empty pieces are removed |
| JavaStrings.Split | karate-core/src/main/java/com/intuit/karate/cucumber/StepWrapper.java:98 | `split("\n")` gives the whole text when there is no newline; otherwise it gives the newline-separated pieces less all their trailing empty ones: the result is empty or ends in a non-empty piece, and only empty pieces are dropped |
| JavaStrings.SplitTrimmedCount | karate-core/src/main/java/com/intuit/karate/cucumber/StepWrapper.java:94-100 | on non-empty trimmed text, splitting drops nothing: the piece count is the newline count plus one |
| JavaInt.Wrap | karate-core/src/main/java/com/intuit/karate/cucumber/StepWrapper.java:122-124 | a Java `int` result is the exact value when that fits, and it always differs from the exact value by a multiple of 2^32 |
| JavaInt.Add | karate-core/src/main/java/com/intuit/karate/cucumber/StepWrapper.java:67 | `getLast() + 1` is the exact sum when that fits, and otherwise the sum wrapped modulo 2^32 |
| JavaInt.Sub | karate-core/src/main/java/com/intuit/karate/cucumber/StepWrapper.java:106-112 | `line - 1` is the exact difference when that fits, and otherwise the difference wrapped modulo 2^32 |
| StepText.Text | karate-core/src/main/java/com/intuit/karate/cucumber/StepWrapper.java:56-70 | the text starts with keyword + name; with no doc string and no rows it is exactly that; a doc string's delimited block comes right after it; rows make the text end with a line break and the joined source of lines `line` up to `lineRangeLast + 1`, after any doc-string part |
| StepText.DocStringRoundTrip | karate-core/src/main/java/com/intuit/karate/cucumber/StepWrapper.java:60-65 | the doc-string value can be read back unchanged from between the delimiters, and an absent doc string reads back as absent |
| StepText.DocStringDeterminesText | karate-core/src/main/java/com/intuit/karate/cucumber/StepWrapper.java:60-65 | two steps that differ only in their doc strings never get the same text |
| StepWrapper.New | karate-core/src/main/java/com/intuit/karate/cucumber/StepWrapper.java:47-54 | construction keeps the scenario, index, step and background flag; it stores prior text only when the input has a non-blank character, and then stores it trimmed; it computes the text from the step |
| StepWrapper.TextDeterministic | karate-core/src/main/java/com/intuit/karate/cucumber/StepWrapper.java:53 | the text depends only on the step and scenario; the index, prior text and background flag have no part in it |
| StepWrapper.IsHttpCall | karate-core/src/main/java/com/intuit/karate/cucumber/StepWrapper.java:73-76 | a step is an HTTP call exactly when its name begins with `method` or `soap` |
| StepWrapper.IsPriorTextPresent | karate-core/src/main/java/com/intuit/karate/cucumber/StepWrapper.java:86-88 | absent prior text reads as not present, and present prior text of a constructed wrapper always has a non-blank character |
| StepWrapper.PriorTextPresence | karate-core/src/main/java/com/intuit/karate/cucumber/StepWrapper.java:86-88 | prior text is present exactly when the constructor got a non-null text that has a non-blank character |
| StepWrapper.PriorTextLineCount | karate-core/src/main/java/com/intuit/karate/cucumber/StepWrapper.java:94-100 | the count is 0 exactly when prior text is absent; otherwise it is the newline count plus one |
| StepWrapper.PriorTextLineCountOfNew | karate-core/src/main/java/com/intuit/karate/cucumber/StepWrapper.java:94-100 | for a constructed wrapper, the count is 0 exactly when the input was null or blank; otherwise it is the newlines of the trimmed input plus one |
| StepWrapper.StartLine | karate-core/src/main/java/com/intuit/karate/cucumber/StepWrapper.java:106-108 | the start line is `line - 1` wrapped to 32 bits, which is exactly `line - 1` whenever that fits in an `int` |
| StepWrapper.EndLine | karate-core/src/main/java/com/intuit/karate/cucumber/StepWrapper.java:110-112 | the end line is `lineRangeLast - 1` wrapped to 32 bits, which is exactly `lineRangeLast - 1` whenever that fits in an `int` |
| StepWrapper.LineCount | karate-core/src/main/java/com/intuit/karate/cucumber/StepWrapper.java:122-124 | the line count is `lineRangeLast - line + 1` wrapped to 32 bits; for `1 <= line <= lineRangeLast` it is exactly that, and at least 1 |
| StepWrapper.LineCountWraps | karate-core/src/main/java/com/intuit/karate/cucumber/StepWrapper.java:122-124 | the three wrapping `int` operations together equal one wrap of the exact line count |
| StepRun.ReportOf | karate-core/src/main/java/com/intuit/karate/cucumber/StepWrapper.java:137-145 | the reported status is PASSED exactly when there is no cause, and the report carries that cause |
| StepRun.ReplayCounts | karate-core/src/main/java/com/intuit/karate/cucumber/StepWrapper.java:131-148 | from any phase, a replay that completes the protocol emits exactly the result notifications and error logs still owed |
| StepRun.ConformingCounts | karate-core/src/main/java/com/intuit/karate/cucumber/StepWrapper.java:131-148 | a complete run emits one result notification when a reporter is present (none otherwise) and one error log, only on failure |
| StepRun.RunTraceConforms | karate-core/src/main/java/com/intuit/karate/cucumber/StepWrapper.java:131-148 | step, match, result, then the log on failure, is a complete run of the protocol |
| StepRun.LogMessage | karate-core/src/main/java/com/intuit/karate/cucumber/StepWrapper.java:147 | the error-log line is the fixed text `step failed: ` followed by the cause's message, or by `null` when the message is null |
| StepRun.Invoke | karate-core/src/main/java/com/intuit/karate/cucumber/StepWrapper.java:136 | a null match never completes: running it fails with a null dereference; a found match is run with the feature's language |
| StepRun.Run | karate-core/src/main/java/com/intuit/karate/cucumber/StepWrapper.java:126-150 | a lookup that throws escapes with no events. Otherwise the result refers to this wrapper and carries no failure exactly when the definition returned normally, and otherwise the thrown cause. With a reporter the events are step, match, then a result with that status and cause. On failure alone, one error log follows. The trace conforms to the protocol |

## Left out

- Cucumber and Gherkin internals: `Glue.stepDefinitionMatch`, `StepDefinitionMatch.runStep`, the feature's `joinLines` and the parser's `Step`. They are foreign code, so the model takes them as uninterpreted inputs. `ScenarioWrapper` and `FeatureWrapper` are not part of this model. A scenario is a handle that carries `joinLines` and the feature's language.
- The reporter and the logger are I/O. Each call is one event appended to the trace. The model assumes these calls return normally. If `reporter.result` threw after a PASSED report, the source's `catch` would report FAILED as well; that case is not modelled.
- Null keyword, name or doc-string value: `StringBuilder.append` would write `null`, and `isHttpCall` would throw on a null name. The parser never produces these, so the model's strings are never null. Null doc strings and null rows are modelled.
- The `i18n` object is reduced to the feature's language name. The zero duration and the placeholder `Object` of the reported `Result` are dropped. A `Throwable` is reduced to its message.
- The message of the null-pointer exception from running a null match is modelled as null, as on JVMs without helpful null-pointer messages.
- `getIndex`, `isBackground`, `getPriorText`, `getStep`, `getScenario` and `getText` return stored fields. They are the fields of `StepWrapper.Wrapper` and have no contracts of their own.
- `String.split` is modelled only for the one-character separator the source uses, which never reaches the regular-expression engine.
- Java strings are UTF-16 code units and Dafny's `char` is a Unicode scalar value. The blank test (`c <= ' '`) reads the same under both.
- Threads: a step runs synchronously, and the class holds no shared mutable state.

## Notes on the source

- A lookup that returns null does not escape `run`. The null match reaches `reporter.match`, and `match.runStep` then throws a null-pointer exception inside the `try`. So the step becomes a FAILED result and nothing escapes; only a lookup that throws (for example on an ambiguous match) escapes. `Gherkin.Lookup` separates `Throws` (escapes) from `NoMatch` (a null return, caught as `NullDereference`).
- `getLineCount` is not always at least 1. The code computes `(lineRangeLast - 1) - (line - 1) + 1` in 32-bit arithmetic and checks nothing about the range. `StepWrapper.LineCount` states the wrapped value for every input, and gives "at least 1" only for line ranges with `1 <= line <= lineRangeLast`.
