/**
 * The step descriptor: an immutable record of one step of a scenario (its
 * position, background flag, prior text and display text) and the accessors
 * a report renderer reads from it.
 */
module StepWrapper {
  import opened Optional
  import opened JavaInt
  import opened JavaStrings
  import opened Gherkin
  import StepText

  /**
   * `scenario` is a non-owning handle on the owning scenario; `priorText` the
   * free text written just before the step, after trimming; `text` the display
   * text computed once at construction.
   */
  datatype Wrapper = Wrapper(
    scenario: Scenario,
    index: int32,
    step: Step,
    background: bool,
    priorText: Option<string>,
    text: string)

  /** What construction guarantees of every wrapper: trimmed, non-blank prior text, and the step's own text. */
  predicate Valid(w: Wrapper) {
    && (w.priorText.Some? ==> w.priorText.value != [] && IsTrimmed(w.priorText.value))
    && w.text == StepText.Text(w.step, w.scenario)
  }

  /** The constructor: prior text trimmed to null, text built from the step. */
  function New(scenario: Scenario, index: int32, priorText: Option<string>, step: Step, background: bool): (w: Wrapper)
    ensures Valid(w)
    ensures w.scenario == scenario && w.index == index && w.step == step && w.background == background
    ensures w.priorText.None? <==> priorText.None? || AllBlank(priorText.value)
    ensures w.priorText.Some? ==> w.priorText.value == Trim(priorText.value)
  {
    Wrapper(scenario, index, step, background, TrimToNull(priorText), StepText.Text(step, scenario))
  }

  /** A step counts as an HTTP call when its name begins with `method` or `soap`. */
  function IsHttpCall(w: Wrapper): (b: bool)
    ensures b <==> ((|w.step.name| >= 6 && w.step.name[..6] == "method")
                    || (|w.step.name| >= 4 && w.step.name[..4] == "soap"))
  {
    StartsWith(w.step.name, "method") || StartsWith(w.step.name, "soap")
  }

  /** Prior text is present when stored, and stored prior text of a valid wrapper always has a non-blank character. */
  function IsPriorTextPresent(w: Wrapper): (b: bool)
    ensures !b ==> w.priorText == None
    ensures b && Valid(w) ==> w.priorText.Some? && !AllBlank(w.priorText.value)
  {
    w.priorText.Some?
  }

  /**
   * The number of lines of prior text, counted as the pieces `split("\n")`
   * returns: none when absent, else one more than the number of newlines.
   */
  function PriorTextLineCount(w: Wrapper): (n: nat)
    requires Valid(w)
    ensures n == 0 <==> !IsPriorTextPresent(w)
    ensures IsPriorTextPresent(w) ==> n == NewlineCount(w.priorText.value) + 1
  {
    if !IsPriorTextPresent(w) then 0
    else
      SplitTrimmedCount(w.priorText.value);
      |Split(w.priorText.value)|
  }

  /** The zero-based line of the step keyword. */
  function StartLine(w: Wrapper): (r: int32)
    ensures r == Wrap(w.step.line as int - 1)
    ensures InRange(w.step.line as int - 1) ==> r as int == w.step.line as int - 1
  {
    Sub(w.step.line, 1)
  }

  /** The zero-based last line of the step's range. */
  function EndLine(w: Wrapper): (r: int32)
    ensures r == Wrap(w.step.lineRangeLast as int - 1)
    ensures InRange(w.step.lineRangeLast as int - 1) ==> r as int == w.step.lineRangeLast as int - 1
  {
    Sub(w.step.lineRangeLast, 1)
  }

  /** How many source lines the step spans, computed in Java `int` arithmetic. */
  function LineCount(w: Wrapper): (n: int32)
    ensures n == Wrap(w.step.lineRangeLast as int - w.step.line as int + 1)
    ensures 1 <= w.step.line <= w.step.lineRangeLast ==>
              n as int == w.step.lineRangeLast as int - w.step.line as int + 1 && n >= 1
  {
    var n := Add(Sub(EndLine(w), StartLine(w)), 1);
    LineCountWraps(w, n);
    n
  }

  /** Each of the three `int` operations in the line count loses only whole multiples of 2^32. */
  lemma LineCountWraps(w: Wrapper, n: int32)
    requires n == Add(Sub(EndLine(w), StartLine(w)), 1)
    ensures n == Wrap(w.step.lineRangeLast as int - w.step.line as int + 1)
  {
    var last, line := w.step.lineRangeLast as int, w.step.line as int;
    var k1 := WrapOffset(last - 1);
    var k2 := WrapOffset(line - 1);
    var k3 := WrapOffset(EndLine(w) as int - StartLine(w) as int);
    var k4 := WrapOffset(Sub(EndLine(w), StartLine(w)) as int + 1);
    WrapUnique(last - line + 1, n, k1 - k2 + k3 + k4);
  }

  /** Prior text is present exactly when the constructor was given text that is not all blank. */
  lemma PriorTextPresence(scenario: Scenario, index: int32, priorText: Option<string>, step: Step, background: bool)
    ensures IsPriorTextPresent(New(scenario, index, priorText, step, background))
            <==> priorText.Some? && exists i :: 0 <= i < |priorText.value| && !IsBlank(priorText.value[i])
  {
  }

  /**
   * The line count of constructed prior text: zero without it, else the
   * newlines of the trimmed text plus one, so at least one.
   */
  lemma PriorTextLineCountOfNew(scenario: Scenario, index: int32, priorText: Option<string>, step: Step, background: bool)
    ensures var w := New(scenario, index, priorText, step, background);
            && (PriorTextLineCount(w) == 0 <==> priorText.None? || AllBlank(priorText.value))
            && (PriorTextLineCount(w) > 0 ==> PriorTextLineCount(w) == NewlineCount(Trim(priorText.value)) + 1)
  {
  }

  /**
   * The text is a function of the step and the scenario alone: the index, the
   * prior text and the background flag have no part in it.
   */
  lemma TextDeterministic(scenario: Scenario, index: int32, index': int32, priorText: Option<string>,
                          priorText': Option<string>, step: Step, background: bool, background': bool)
    ensures New(scenario, index, priorText, step, background).text
         == New(scenario, index', priorText', step, background').text
  {
  }
}
