/**
 * The display text of a step: the keyword and name, then an attached doc
 * string between triple-quote lines, then the attached table exactly as it
 * stands in the feature source.
 */
module StepText {
  import opened Optional
  import opened JavaInt
  import opened Gherkin

  /** The line break and delimiter line opening a doc string. */
  const DocOpen: string := "\n\"\"\"\n"
  /** The line break and delimiter line closing a doc string. */
  const DocClose: string := "\n\"\"\""

  /** Keyword and name, with no separator: the keyword carries its own trailing space. */
  function Head(step: Step): string {
    step.keyword + step.name
  }

  /** A doc-string value between its delimiter lines. */
  function DocBlock(value: string): string {
    DocOpen + value + DocClose
  }

  /**
   * The feature source from the step's line through the end of its line range,
   * fetched with an exclusive end of `lineRangeLast + 1` (a Java `int` sum).
   */
  function RowsSource(step: Step, scenario: Scenario): string {
    scenario.joinLines(step.line, Add(step.lineRangeLast, 1))
  }

  /** How many characters follow the doc-string part: a line break and the table source, if rows are attached. */
  function TailLength(step: Step, scenario: Scenario): nat {
    if step.rows.Some? then 1 + |RowsSource(step, scenario)| else 0
  }

  /** The step text the wrapper computes once, at construction. */
  function Text(step: Step, scenario: Scenario): (r: string)
    ensures |r| == |Head(step)| + (if step.docString.Some? then |DocBlock(step.docString.value)| else 0)
                                + TailLength(step, scenario)
    ensures r[..|Head(step)|] == Head(step)
    ensures step.docString.None? && step.rows.None? ==> r == Head(step)
    ensures step.docString.Some? ==>
              r[|Head(step)|..|Head(step)| + |DocBlock(step.docString.value)|] == DocBlock(step.docString.value)
    ensures step.docString.Some? && step.rows.None? ==> r == Head(step) + DocBlock(step.docString.value)
    ensures step.rows.Some? ==> r[|r| - TailLength(step, scenario)..] == "\n" + RowsSource(step, scenario)
  {
    var withHead := Head(step);
    var withDoc := if step.docString.Some? then withHead + DocBlock(step.docString.value) else withHead;
    if step.rows.Some? then withDoc + "\n" + RowsSource(step, scenario) else withDoc
  }

  /**
   * Reads a doc-string value back out of a step text, given how many characters
   * precede and follow the doc-string part: present exactly when that part is
   * framed by the two delimiter lines.
   */
  function ParseDocString(text: string, headLength: nat, tailLength: nat): Option<string>
    requires headLength + tailLength <= |text|
  {
    var middle := text[headLength..|text| - tailLength];
    if |DocOpen| + |DocClose| <= |middle|
       && middle[..|DocOpen|] == DocOpen
       && middle[|middle| - |DocClose|..] == DocClose
    then Some(middle[|DocOpen|..|middle| - |DocClose|])
    else None
  }

  /**
   * The text loses nothing of the doc string: the value is recovered unchanged
   * from between the delimiters, and its absence is recovered as absence.
   */
  lemma {:induction false} DocStringRoundTrip(step: Step, scenario: Scenario)
    ensures |Head(step)| + TailLength(step, scenario) <= |Text(step, scenario)|
    ensures ParseDocString(Text(step, scenario), |Head(step)|, TailLength(step, scenario)) == step.docString
  {
    var r := Text(step, scenario);
    var middle := r[|Head(step)|..|r| - TailLength(step, scenario)];
    match step.docString
    case None =>
      assert |middle| == 0;
    case Some(v) =>
      assert middle == DocBlock(v);
      assert middle[..|DocOpen|] == DocOpen;
      assert middle[|middle| - |DocClose|..] == DocClose;
      assert middle[|DocOpen|..|middle| - |DocClose|] == v;
  }

  /** Two steps that differ only in their doc strings never share a text. */
  lemma DocStringDeterminesText(step: Step, docString: Option<string>, scenario: Scenario)
    requires docString != step.docString
    ensures Text(step.(docString := docString), scenario) != Text(step, scenario)
  {
    var other := step.(docString := docString);
    assert Head(other) == Head(step);
    assert TailLength(other, scenario) == TailLength(step, scenario);
    DocStringRoundTrip(step, scenario);
    DocStringRoundTrip(other, scenario);
  }
}
