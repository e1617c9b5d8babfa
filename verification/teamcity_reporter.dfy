/**
 The TeamCity console reporter: turns the line, branch and method coverage
 summaries of a coverage result into six TeamCity buildStatisticValue service
 messages, and refuses deterministic-report mode.
 */
module TeamCityReporter {
  import opened Wrappers
  import opened Decimal
  import opened Lines
  import opened ServiceMessage

  datatype ReporterOutputType = File | Console

  /** The (Covered, Total) pair a coverage summary computes for one granularity. */
  datatype CoverageDetails = CoverageDetails(covered: nat, total: nat)

  /** The three summaries the reporter reads from a coverage result, and the one
      parameter it inspects. */
  datatype ReportInput = ReportInput(
    deterministicReport: bool,
    lineCoverage: CoverageDetails,
    branchCoverage: CoverageDetails,
    methodCoverage: CoverageDetails)

  /** The reporter's NotSupportedException. */
  datatype ReportError = NotSupported(message: string)

  /** What a reporter declares about itself. */
  datatype ReporterDescriptor = ReporterDescriptor(
    outputType: ReporterOutputType,
    format: string,
    extension: Option<string>)

  const DeterministicNotSupported: string := "Deterministic report not supported by teamcity reporter"

  const LineCoveredKey: string := "CodeCoverageAbsLCovered"
  const LineTotalKey: string := "CodeCoverageAbsLTotal"
  const BranchCoveredKey: string := "CodeCoverageAbsBCovered"
  const BranchTotalKey: string := "CodeCoverageAbsBTotal"
  const MethodCoveredKey: string := "CodeCoverageAbsMCovered"
  const MethodTotalKey: string := "CodeCoverageAbsMTotal"

  /** The keys of the report, in the order they are written. */
  const Keys: seq<string> :=
    [LineCoveredKey, LineTotalKey, BranchCoveredKey, BranchTotalKey, MethodCoveredKey, MethodTotalKey]

  /** The reporter writes to the console under format "teamcity" and has no file extension. */
  function Descriptor(): (d: ReporterDescriptor)
    ensures d.outputType == Console
    ensures d.format == "teamcity"
    ensures d.extension == None
  {
    ReporterDescriptor(Console, "teamcity", None)
  }

  /** The six counts of a report, in the order their keys appear in Keys. */
  function Values(input: ReportInput): seq<nat> {
    [ input.lineCoverage.covered, input.lineCoverage.total,
      input.branchCoverage.covered, input.branchCoverage.total,
      input.methodCoverage.covered, input.methodCoverage.total ]
  }

  /** The statistics a report must carry, in order: the k-th key of Keys with
      the k-th count of Values. This is the reference the output is read against. */
  function ExpectedStatistics(input: ReportInput): (sts: seq<Statistic>)
    ensures |sts| == 6
  {
    seq(6, k requires 0 <= k < 6 => Statistic(Keys[k], Values(input)[k]))
  }

  /** OutputTeamCityServiceMessage: appends one service message line to the
      builder, leaving what was already there untouched. */
  function AppendMessage(builder: string, key: string, value: nat, eol: LineEnding): (r: string)
    ensures |builder| < |r| && r[..|builder|] == builder
  {
    var added := Message(key, value) + eol.Text();
    AppendSlices(builder, added);
    builder + added
  }

  /** Appending a message to the text of some lines gives the text of those
      lines followed by the message line. */
  lemma AppendMessageAddsLine(lines: seq<string>, key: string, value: nat, eol: LineEnding)
    ensures AppendMessage(JoinLines(lines, eol), key, value, eol) == JoinLines(lines + [Message(key, value)], eol)
  {
    JoinLinesAppend(lines, [Message(key, value)], eol);
    JoinOneLine(Message(key, value), eol);
  }

  /** Appending the Covered message and then the Total message of one summary
      adds their two lines, in that order. */
  lemma AppendPairAddsLines(lines: seq<string>, coveredKey: string, totalKey: string, details: CoverageDetails, eol: LineEnding)
    ensures var b := AppendMessage(JoinLines(lines, eol), coveredKey, details.covered, eol);
      AppendMessage(b, totalKey, details.total, eol)
        == JoinLines(lines + [Message(coveredKey, details.covered), Message(totalKey, details.total)], eol)
  {
    var m1, m2 := Message(coveredKey, details.covered), Message(totalKey, details.total);
    AppendMessageAddsLine(lines, coveredKey, details.covered, eol);
    AppendMessageAddsLine(lines + [m1], totalKey, details.total, eol);
    assert lines + [m1] + [m2] == lines + [m1, m2];
  }

  function OutputLineCoverage(details: CoverageDetails, builder: string, eol: LineEnding): string {
    AppendMessage(AppendMessage(builder, LineCoveredKey, details.covered, eol), LineTotalKey, details.total, eol)
  }

  function OutputBranchCoverage(details: CoverageDetails, builder: string, eol: LineEnding): string {
    AppendMessage(AppendMessage(builder, BranchCoveredKey, details.covered, eol), BranchTotalKey, details.total, eol)
  }

  function OutputMethodCoverage(details: CoverageDetails, builder: string, eol: LineEnding): string {
    AppendMessage(AppendMessage(builder, MethodCoveredKey, details.covered, eol), MethodTotalKey, details.total, eol)
  }

  /** The report: rejected in deterministic mode before anything is written,
      otherwise the line, branch and method messages in that order. */
  function Report(input: ReportInput, eol: LineEnding): (r: Result<string, ReportError>)
    ensures r.Failure? <==> input.deterministicReport
    ensures r.Failure? ==> r.error == NotSupported(DeterministicNotSupported)
  {
    if input.deterministicReport then
      Failure(NotSupported(DeterministicNotSupported))
    else
      var b1 := OutputLineCoverage(input.lineCoverage, "", eol);
      var b2 := OutputBranchCoverage(input.branchCoverage, b1, eol);
      var b3 := OutputMethodCoverage(input.methodCoverage, b2, eol);
      Success(b3)
  }

  /** The six lines a report must consist of: line k is the service message for
      the k-th key of Keys with the k-th count. */
  function ExpectedLines(input: ReportInput): (lines: seq<string>)
    ensures |lines| == 6
    ensures forall k :: 0 <= k < 6 ==> lines[k] == Message(Keys[k], Values(input)[k])
  {
    MessageLines(ExpectedStatistics(input))
  }

  /** Writing the three summaries into an empty builder gives the text of their
      six message lines, Covered before Total, line before branch before method. */
  lemma SummariesText(lines: CoverageDetails, branches: CoverageDetails, methods: CoverageDetails, eol: LineEnding)
    ensures OutputMethodCoverage(methods, OutputBranchCoverage(branches, OutputLineCoverage(lines, "", eol), eol), eol)
      == JoinLines([ Message(LineCoveredKey, lines.covered), Message(LineTotalKey, lines.total),
                     Message(BranchCoveredKey, branches.covered), Message(BranchTotalKey, branches.total),
                     Message(MethodCoveredKey, methods.covered), Message(MethodTotalKey, methods.total) ], eol)
  {
    var l := [Message(LineCoveredKey, lines.covered), Message(LineTotalKey, lines.total)];
    var b := [Message(BranchCoveredKey, branches.covered), Message(BranchTotalKey, branches.total)];
    var m := [Message(MethodCoveredKey, methods.covered), Message(MethodTotalKey, methods.total)];
    var b1 := OutputLineCoverage(lines, "", eol);
    assert b1 == JoinLines(l, eol) by {
      assert JoinLines([], eol) == "";
      AppendPairAddsLines([], LineCoveredKey, LineTotalKey, lines, eol);
      assert [] + l == l;
    }
    var b2 := OutputBranchCoverage(branches, b1, eol);
    assert b2 == JoinLines(l + b, eol) by {
      AppendPairAddsLines(l, BranchCoveredKey, BranchTotalKey, branches, eol);
    }
    assert OutputMethodCoverage(methods, b2, eol) == JoinLines(l + b + m, eol) by {
      AppendPairAddsLines(l + b, MethodCoveredKey, MethodTotalKey, methods, eol);
    }
    assert l + b + m == [l[0], l[1], b[0], b[1], m[0], m[1]];
  }

  /** A successful report is the text of the six expected lines, each followed
      by the platform newline, and nothing else. */
  lemma ReportText(input: ReportInput, eol: LineEnding)
    requires !input.deterministicReport
    ensures Report(input, eol).value == JoinLines(ExpectedLines(input), eol)
  {
    var lines := ExpectedLines(input);
    assert lines == [lines[0], lines[1], lines[2], lines[3], lines[4], lines[5]];
    SummariesText(input.lineCoverage, input.branchCoverage, input.methodCoverage, eol);
  }

  /** The lines of a successful report, as the text splits into them. */
  function ReportLines(input: ReportInput, eol: LineEnding): Option<seq<string>>
    requires !input.deterministicReport
  {
    SplitLines(Report(input, eol).value, eol)
  }

  /** Every key of the report can be written unescaped. */
  lemma ExpectedKeysValid(input: ReportInput)
    ensures ValidKeys(ExpectedStatistics(input))
  {
    KeysValid();
  }

  /** None of the six keys contains a quote or a newline. */
  lemma KeysValid()
    ensures forall k :: 0 <= k < |Keys| ==> ValidKey(Keys[k])
  {
    assert ValidKey(LineCoveredKey);
    assert ValidKey(LineTotalKey);
    assert ValidKey(BranchCoveredKey);
    assert ValidKey(BranchTotalKey);
    assert ValidKey(MethodCoveredKey);
    assert ValidKey(MethodTotalKey);
  }

  /** The text of the expected lines reads back as the expected statistics. */
  lemma ParseExpectedText(text: string, input: ReportInput, eol: LineEnding)
    requires text == JoinLines(ExpectedLines(input), eol)
    ensures ParseReport(text, eol) == Some(ExpectedStatistics(input))
  {
    ExpectedKeysValid(input);
    ParseReportOfMessageLines(ExpectedStatistics(input), eol);
  }

  /** A successful report splits into exactly the six expected lines. */
  lemma ReportLayout(input: ReportInput, eol: LineEnding)
    requires !input.deterministicReport
    ensures ReportLines(input, eol) == Some(ExpectedLines(input))
  {
    ReportText(input, eol);
    ExpectedKeysValid(input);
    SplitMessageLines(ExpectedStatistics(input), eol);
  }

  /** A successful report reads back as the six expected statistics. */
  lemma ReportReadsBack(input: ReportInput, eol: LineEnding)
    requires !input.deterministicReport
    ensures ParseReport(Report(input, eol).value, eol) == Some(ExpectedStatistics(input))
  {
    ReportText(input, eol);
    ParseExpectedText(Report(input, eol).value, input, eol);
  }

  /** Line k of the expected lines of two inputs is the same exactly when their
      k-th counts are equal. */
  lemma ExpectedLineDependsOnlyOnItsCount(a: ReportInput, b: ReportInput, k: nat)
    requires k < 6
    ensures ExpectedLines(a)[k] == ExpectedLines(b)[k] <==> Values(a)[k] == Values(b)[k]
  {
    assert ValidKey(Keys[k]);
    MessageInjective(Statistic(Keys[k], Values(a)[k]), Statistic(Keys[k], Values(b)[k]));
  }

  /** Changing only the branch summary changes only the third and fourth lines
      of the report, and changes them whenever the summary differs. */
  lemma BranchChangeIsLocal(input: ReportInput, branch: CoverageDetails, eol: LineEnding)
    requires !input.deterministicReport
    ensures ReportLines(input, eol).Some? && |ReportLines(input, eol).value| == 6
    ensures ReportLines(input.(branchCoverage := branch), eol).Some?
    ensures |ReportLines(input.(branchCoverage := branch), eol).value| == 6
    ensures var before := ReportLines(input, eol).value;
      var after := ReportLines(input.(branchCoverage := branch), eol).value;
      && before[..2] == after[..2]
      && before[4..] == after[4..]
      && (before[2..4] == after[2..4] <==> input.branchCoverage == branch)
  {
    var other := input.(branchCoverage := branch);
    ReportLayout(input, eol);
    ReportLayout(other, eol);
    BranchChangeIsLocalInLines(input, branch);
  }

  /** The same locality, stated over the expected lines themselves. */
  lemma BranchChangeIsLocalInLines(input: ReportInput, branch: CoverageDetails)
    ensures var before := ExpectedLines(input);
      var after := ExpectedLines(input.(branchCoverage := branch));
      && before[..2] == after[..2]
      && before[4..] == after[4..]
      && (before[2..4] == after[2..4] <==> input.branchCoverage == branch)
  {
    var other := input.(branchCoverage := branch);
    var before := ExpectedLines(input);
    var after := ExpectedLines(other);
    forall k | 0 <= k < 6
      ensures before[k] == after[k] <==> Values(input)[k] == Values(other)[k]
    {
      ExpectedLineDependsOnlyOnItsCount(input, other, k);
    }
    assert before[..2] == after[..2];
    assert before[4..] == after[4..];
    if before[2..4] == after[2..4] {
      assert before[2] == after[2] && before[3] == after[3];
    }
  }
}
