/**
 * The parts of the Gherkin parser's and Cucumber's objects that the step
 * wrapper reads. Their implementations are not part of this model: a step is
 * the data the parser hands over, and every service (joining feature lines,
 * matching a definition, running it) is an uninterpreted function supplied by
 * the caller.
 */
module Gherkin {
  import opened Optional
  import opened JavaInt

  /** A table row, as the parser's cells; the step text never looks inside it. */
  type Row = seq<string>

  /**
   * A parsed step. `line` is the one-based line of the step keyword and
   * `lineRangeLast` the one-based last line of its range (Java `int`s).
   * `docString` holds the value of an attached doc string, `rows` the attached
   * table; `None` is a Java null.
   */
  datatype Step = Step(
    keyword: string,
    name: string,
    docString: Option<string>,
    rows: Option<seq<Row>>,
    line: int32,
    lineRangeLast: int32)

  /**
   * The owning scenario, seen only through its feature's services:
   * `joinLines(start, endExclusive)` returns the feature's source text for
   * those lines, and `i18n` names the feature's language.
   */
  datatype Scenario = Scenario(joinLines: (int32, int32) -> string, i18n: string)

  /** What a step-definition match is bound to; the model never looks inside it. */
  datatype Match = Match(definition: string, arguments: seq<string>)

  /**
   * A Java `Throwable` caught from running a step, with its `getMessage()`
   * (which may be null). `NullDereference` is the `NullPointerException`
   * raised by calling `runStep` on a null match.
   */
  datatype Cause = Raised(message: Option<string>) | NullDereference {
    function Message(): Option<string> {
      match this
      case Raised(m) => m
      case NullDereference => None
    }
  }

  /**
   * What `Glue.stepDefinitionMatch` does with a step: throw (for example on an
   * ambiguous match), return null (no definition found), or return a match.
   */
  datatype Lookup = Throws(error: Cause) | NoMatch | Found(found: Match)

  /** What `StepDefinitionMatch.runStep` does: return normally, or throw. */
  datatype Invocation = Completes | Fails(cause: Cause)
}
