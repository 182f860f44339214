/**
 * Running one step: look up its definition, tell the reporter about the step
 * and the match, run the definition, and turn the outcome into a step result.
 * A failed lookup escapes; a failure while running is caught, reported,
 * logged once and returned in the result.
 */
module StepRun {
  import opened Optional
  import opened Gherkin
  import opened StepWrapper

  datatype Status = Passed | Failed

  /** The reporter's `Result`: a status and the caught cause, if any (the duration is always zero). */
  datatype Report = Report(status: Status, error: Option<Cause>)

  /** One observable effect of a run, in the order it happens. */
  datatype Event =
    | StepStarted(step: Step)           // reporter.step
    | MatchReported(matched: Option<Match>)  // reporter.match, with a null match as None
    | ResultReported(report: Report)    // reporter.result
    | ErrorLogged(message: string)      // the feature environment's logger, at error level

  /** What `run` returns: the wrapper it ran and the caught cause, null when the step passed. */
  datatype StepResult = StepResult(wrapper: Wrapper, failure: Option<Cause>)

  /** How a call to `run` ends: by returning a result, or by letting the lookup's exception escape. */
  datatype Outcome = Returned(result: StepResult) | Propagated(error: Cause)

  /** The report a run with this failure (or none) hands the reporter. */
  function ReportOf(failure: Option<Cause>): (r: Report)
    ensures r.error == failure
    ensures r.status == Passed <==> failure.None?
  {
    Report(if failure.None? then Passed else Failed, failure)
  }

  /** The fixed text the logger's pattern puts before the message. */
  const LogPrefix: string := "step failed: "

  /** The logged line: the cause's message after a fixed prefix, with a null message printed as `null`. */
  function LogMessage(cause: Cause): (r: string)
    ensures |r| >= |LogPrefix| && r[..|LogPrefix|] == LogPrefix
    ensures cause.Message().Some? ==> r[|LogPrefix|..] == cause.Message().value
    ensures cause.Message().None? ==> r[|LogPrefix|..] == "null"
  {
    LogPrefix + cause.Message().GetOr("null")
  }

  /**
   * What running the matched definition does. A null match has no definition
   * to run: calling it raises a null dereference inside the guarded block.
   */
  function Invoke(lookup: Lookup, runStep: (Match, string) -> Invocation, i18n: string): (r: Invocation)
    requires !lookup.Throws?
    ensures lookup.NoMatch? ==> r == Fails(NullDereference)
    ensures r.Completes? ==> lookup.Found?
    ensures lookup.Found? ==> r == runStep(lookup.found, i18n)
  {
    match lookup
    case NoMatch => Fails(NullDereference)
    case Found(m) => runStep(m, i18n)
  }

  /**
   * The effects of a run that got past the lookup, in order: with a reporter,
   * the step, the match and the result; then, after a failure, the error log.
   */
  function Effects(reporting: bool, step: Step, matched: Option<Match>, failure: Option<Cause>): seq<Event> {
    (if reporting then [StepStarted(step), MatchReported(matched), ResultReported(ReportOf(failure))] else [])
    + (if failure.Some? then [ErrorLogged(LogMessage(failure.value))] else [])
  }

  // ---------------------------------------------------------------- the protocol

  /** How far a run has got, as the observer sees it. */
  datatype Phase = Begin | StepAnnounced | MatchAnnounced | ResultAnnounced | Logged

  /**
   * The protocol as a state machine: the event `e` is allowed in phase `p` of a
   * run whose reporter is present when `reporting` holds and whose step ends
   * with `failure`, and leads to the returned phase.
   */
  function Next(reporting: bool, failure: Option<Cause>, p: Phase, e: Event): Option<Phase> {
    match e
    case StepStarted(_) =>
      if reporting && p == Begin then Some(StepAnnounced) else None
    case MatchReported(_) =>
      if p == StepAnnounced then Some(MatchAnnounced) else None
    case ResultReported(report) =>
      if p == MatchAnnounced && report == ReportOf(failure) then Some(ResultAnnounced) else None
    case ErrorLogged(message) =>
      if failure.Some? && message == LogMessage(failure.value)
         && (p == ResultAnnounced || (!reporting && p == Begin))
      then Some(Logged)
      else None
  }

  /** The phase reached by feeding `trace` to the machine from `p`, if every event is allowed. */
  function Replay(reporting: bool, failure: Option<Cause>, p: Phase, trace: seq<Event>): Option<Phase>
    decreases |trace|
  {
    if trace == [] then Some(p)
    else
      match Next(reporting, failure, p, trace[0])
      case None => None
      case Some(q) => Replay(reporting, failure, q, trace[1..])
  }

  /** Where a complete run stops: logged after a failure, else after the result (or at once, unobserved). */
  function Final(reporting: bool, failure: Option<Cause>): Phase {
    if failure.Some? then Logged else if reporting then ResultAnnounced else Begin
  }

  /** `trace` is a complete run of the protocol ending with `failure`. */
  predicate Conforms(trace: seq<Event>, reporting: bool, failure: Option<Cause>) {
    Replay(reporting, failure, Begin, trace) == Some(Final(reporting, failure))
  }

  function ResultCount(trace: seq<Event>): nat {
    if trace == [] then 0 else (if trace[0].ResultReported? then 1 else 0) + ResultCount(trace[1..])
  }

  function LogCount(trace: seq<Event>): nat {
    if trace == [] then 0 else (if trace[0].ErrorLogged? then 1 else 0) + LogCount(trace[1..])
  }

  /** Result notifications still owed from phase `p`. */
  function ResultsOwed(reporting: bool, p: Phase): nat {
    if p == StepAnnounced || p == MatchAnnounced || (reporting && p == Begin) then 1 else 0
  }

  /** Error logs still owed from phase `p`. */
  function LogsOwed(failure: Option<Cause>, p: Phase): nat {
    if failure.Some? && p != Logged then 1 else 0
  }

  /** From any phase, a replay that reaches the final phase emits exactly the notifications still owed. */
  lemma {:induction false} ReplayCounts(reporting: bool, failure: Option<Cause>, p: Phase, trace: seq<Event>)
    requires Replay(reporting, failure, p, trace) == Some(Final(reporting, failure))
    ensures ResultCount(trace) == ResultsOwed(reporting, p)
    ensures LogCount(trace) == LogsOwed(failure, p)
    decreases |trace|
  {
    if trace != [] {
      var q := Next(reporting, failure, p, trace[0]).value;
      ReplayCounts(reporting, failure, q, trace[1..]);
      match trace[0]
      case StepStarted(_) =>
      case MatchReported(_) =>
      case ResultReported(_) =>
      case ErrorLogged(_) =>
    }
  }

  /**
   * Any conforming run emits exactly one result notification when a reporter
   * is present and none otherwise, and exactly one error log, only on failure.
   */
  lemma ConformingCounts(trace: seq<Event>, reporting: bool, failure: Option<Cause>)
    requires Conforms(trace, reporting, failure)
    ensures ResultCount(trace) == (if reporting then 1 else 0)
    ensures LogCount(trace) == (if failure.Some? then 1 else 0)
  {
    ReplayCounts(reporting, failure, Begin, trace);
  }

  /** The trace `run` emits is a complete run of the protocol. */
  lemma RunTraceConforms(reporting: bool, failure: Option<Cause>, step: Step, matched: Option<Match>)
    ensures Conforms(Effects(reporting, step, matched, failure), reporting, failure)
  {
    var logged := if failure.Some? then [ErrorLogged(LogMessage(failure.value))] else [];
    var after := if failure.Some? then Some(Logged) else Some(ResultAnnounced);
    if failure.Some? {
      assert Replay(reporting, failure, ResultAnnounced, logged) == Some(Logged);
    }
    if reporting {
      var trace := [StepStarted(step), MatchReported(matched), ResultReported(ReportOf(failure))] + logged;
      assert trace[1..][1..][1..] == logged;
      assert Replay(reporting, failure, MatchAnnounced, trace[1..][1..]) == after;
      assert Replay(reporting, failure, StepAnnounced, trace[1..]) == after;
    } else if failure.Some? {
      assert Replay(reporting, failure, Logged, []) == Some(Logged);
    }
  }

  // ---------------------------------------------------------------- run

  /**
   * `StepWrapper.run`. `glue` is the definition lookup and `runStep` the
   * matched definition's invocation, both given the feature's language;
   * `reporting` says whether a reporter was passed.
   */
  method Run(w: Wrapper, glue: (Step, string) -> Lookup, runStep: (Match, string) -> Invocation, reporting: bool)
    returns (outcome: Outcome, trace: seq<Event>)
    ensures glue(w.step, w.scenario.i18n).Throws? ==>
              outcome == Propagated(glue(w.step, w.scenario.i18n).error) && trace == []
    ensures !glue(w.step, w.scenario.i18n).Throws? ==>
              var lookup := glue(w.step, w.scenario.i18n);
              var invocation := Invoke(lookup, runStep, w.scenario.i18n);
              var failure := if invocation.Completes? then None else Some(invocation.cause);
              var matched := if lookup.Found? then Some(lookup.found) else None;
              && outcome == Returned(StepResult(w, failure))
              && trace == Effects(reporting, w.step, matched, failure)
              && Conforms(trace, reporting, failure)
              && ResultCount(trace) == (if reporting then 1 else 0)
              && LogCount(trace) == (if failure.Some? then 1 else 0)
  {
    var i18n := w.scenario.i18n;
    var lookup := glue(w.step, i18n);
    if lookup.Throws? {
      return Propagated(lookup.error), [];
    }
    var matched := if lookup.Found? then Some(lookup.found) else None;
    trace := [];
    if reporting {
      trace := trace + [StepStarted(w.step), MatchReported(matched)];
    }
    var invocation := Invoke(lookup, runStep, i18n);
    match invocation
    case Completes =>
      if reporting {
        trace := trace + [ResultReported(Report(Passed, None))];
      }
      outcome := Returned(StepResult(w, None));
      assert trace == Effects(reporting, w.step, matched, None);
      RunTraceConforms(reporting, None, w.step, matched);
      ConformingCounts(trace, reporting, None);
    case Fails(cause) =>
      if reporting {
        trace := trace + [ResultReported(Report(Failed, Some(cause)))];
      }
      trace := trace + [ErrorLogged(LogMessage(cause))];
      outcome := Returned(StepResult(w, Some(cause)));
      assert trace == Effects(reporting, w.step, matched, Some(cause));
      RunTraceConforms(reporting, Some(cause), w.step, matched);
      ConformingCounts(trace, reporting, Some(cause));
  }
}
