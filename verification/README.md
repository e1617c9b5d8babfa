# TeamCity coverage reporter, modelled in Dafny

This project models coverlet's TeamCity console reporter. Given a coverage
result, the reporter:

- refuses to run in deterministic-report mode;
- otherwise writes six TeamCity `buildStatisticValue` service messages, one
  per line.

The messages come from the line, branch and method coverage summaries, and
each summary contributes a Covered count and then a Total count:

```
##teamcity[buildStatisticValue key='CodeCoverageAbsLCovered' value='…']
##teamcity[buildStatisticValue key='CodeCoverageAbsLTotal' value='…']
##teamcity[buildStatisticValue key='CodeCoverageAbsBCovered' value='…']
##teamcity[buildStatisticValue key='CodeCoverageAbsBTotal' value='…']
##teamcity[buildStatisticValue key='CodeCoverageAbsMCovered' value='…']
##teamcity[buildStatisticValue key='CodeCoverageAbsMTotal' value='…']
```

The modules follow the layers of that output:

- `Wrappers`: the `Option` and `Result` types.
- `Decimal`: how the format string `"0.##"` in the en-US culture renders a
  whole-number count. `ParseDecimal` is its inverse.
- `Lines`: the text `StringBuilder.AppendLine` produces.
  - Every line is followed by `Environment.NewLine`, modelled as the
    `LineEnding` value `Lf` or `CrLf`.
  - `SplitLines` is the inverse of `JoinLines`.
- `ServiceMessage`: the shape of one message (`Message`) and a strict reader
  for it.
  - `ParseMessage` reads one line.
  - `ParseReport` reads a whole text.
- `TeamCityReporter`: the reporter's own code.
  - `Descriptor` gives its output type, format and extension.
  - `AppendMessage` models `OutputTeamCityServiceMessage`.
  - `OutputLineCoverage`, `OutputBranchCoverage` and `OutputMethodCoverage`
    model the three `Output*Coverage` methods.
  - `Report` models `Report`.

The mutable `StringBuilder` is modelled as the string it holds, threaded
through the calls. The reporter's output is checked against one reference in two forms:

- `ExpectedStatistics`: the reference, the six key/count pairs in order;
- `ExpectedLines`: the six message lines of those pairs.

The reporter's `Report` must split into the expected lines and read back as
the expected statistics.

## Model

| member | source | states |
|---|---|---|
| TeamCityReporter.Descriptor | src/coverlet.core/Reporters/TeamCityReporter.cs:11-15 | The reporter writes to the console, under the format name "teamcity", and has no file extension. |
| TeamCityReporter.Report | src/coverlet.core/Reporters/TeamCityReporter.cs:17-22 | The report fails exactly when deterministic-report mode is requested. The failure is always the not-supported error with the message "Deterministic report not supported by teamcity reporter", whatever the summaries are. |
| TeamCityReporter.ReportText | src/coverlet.core/Reporters/TeamCityReporter.cs:30-37 | A successful report is the six expected lines, each followed by the newline, and nothing else. The lines appear in the order line, branch, method, and within each pair Covered comes before Total. |
| TeamCityReporter.SummariesText | src/coverlet.core/Reporters/TeamCityReporter.cs:40-65 | Starting from an empty builder, the three Output*Coverage calls write the six messages with the keys CodeCoverageAbsLCovered, CodeCoverageAbsLTotal, CodeCoverageAbsBCovered, CodeCoverageAbsBTotal, CodeCoverageAbsMCovered and CodeCoverageAbsMTotal. Each key carries the matching count, in that order. |
| TeamCityReporter.ReportLayout | src/coverlet.core/Reporters/TeamCityReporter.cs:31-37 | A successful report splits into exactly six terminated lines. Line k is the message for the k-th key with the k-th count. |
| TeamCityReporter.ReportReadsBack | src/coverlet.core/Reporters/TeamCityReporter.cs:24-37 | Reading a successful report back with the strict message reader gives exactly the six expected statistics, in order. |
| TeamCityReporter.AppendMessage | src/coverlet.core/Reporters/TeamCityReporter.cs:67-70 | Appending a message grows the builder and leaves its existing contents unchanged. |
| TeamCityReporter.AppendMessageAddsLine | src/coverlet.core/Reporters/TeamCityReporter.cs:67-70 | Appending a message to a text of lines gives the text of the same lines plus one more line holding the message. |
| TeamCityReporter.AppendPairAddsLines | src/coverlet.core/Reporters/TeamCityReporter.cs:40-47 | One Output*Coverage call adds two lines, the Covered message and then the Total message. |
| TeamCityReporter.ExpectedLines | src/coverlet.core/Reporters/TeamCityReporter.cs:40-69 | There are six expected lines. Line k is the message built from the k-th key and the k-th count. |
| TeamCityReporter.ExpectedKeysValid | src/coverlet.core/Reporters/TeamCityReporter.cs:43-64 | None of the six keys contains a quote or a newline, so none needs escaping. |
| TeamCityReporter.ExpectedLineDependsOnlyOnItsCount | src/coverlet.core/Reporters/TeamCityReporter.cs:40-69 | For two inputs, line k is the same exactly when their k-th counts are equal. |
| TeamCityReporter.BranchChangeIsLocal | src/coverlet.core/Reporters/TeamCityReporter.cs:26-34 | Replacing only the branch summary leaves lines 1-2 and 5-6 of the report unchanged. Lines 3-4 stay the same exactly when the branch summary is the same. |
| TeamCityReporter.BranchChangeIsLocalInLines | src/coverlet.core/Reporters/TeamCityReporter.cs:49-56 | The same locality, stated over the expected lines. |
| Decimal.NatToDecimal | src/coverlet.core/Reporters/TeamCityReporter.cs:69 | The rendering of a count is non-empty and all digits. It has no sign, separator or decimal point, and no leading zero. It starts with '0' only for zero, and it is a single digit exactly for counts below ten. |
| Decimal.ParseDecimal | src/coverlet.core/Reporters/TeamCityReporter.cs:69 | The reader accepts exactly the canonical digit strings: non-empty, digits only, and no leading zero except in "0". |
| Decimal.ParseNatToDecimal | src/coverlet.core/Reporters/TeamCityReporter.cs:69 | Parsing the rendering of n gives back n. |
| Decimal.NatToDecimalOfParse | src/coverlet.core/Reporters/TeamCityReporter.cs:69 | Every accepted text is the rendering of the number it parses to. |
| Decimal.NatToDecimalInjective | src/coverlet.core/Reporters/TeamCityReporter.cs:69 | Distinct counts are rendered as distinct texts. |
| Decimal.DigitsValueOfNatToDecimal | src/coverlet.core/Reporters/TeamCityReporter.cs:69 | The digits rendered for n denote n. |
| Decimal.NatToDecimalOfDigitsValue | src/coverlet.core/Reporters/TeamCityReporter.cs:69 | A canonical digit string is the rendering of the number it denotes. |
| ServiceMessage.ParseMessageOfMessage | src/coverlet.core/Reporters/TeamCityReporter.cs:69 | A message whose key has no quote and no newline reads back as its key and value. |
| ServiceMessage.MessageOfParseMessage | src/coverlet.core/Reporters/TeamCityReporter.cs:69 | Every line the reader accepts has exactly the shape `##teamcity[buildStatisticValue key='K' value='V']`, and K and V are what it reads. |
| ServiceMessage.MessageInjective | src/coverlet.core/Reporters/TeamCityReporter.cs:69 | Two messages with valid keys are equal exactly when their key and value are equal. |
| ServiceMessage.MessageHasNoNewline | src/coverlet.core/Reporters/TeamCityReporter.cs:69 | A message with a valid key fits on one line. |
| ServiceMessage.MessagesOfParseMessages | src/coverlet.core/Reporters/TeamCityReporter.cs:69 | Each line of an accepted list is the message of the statistic read from it. |
| ServiceMessage.ParseMessagesOfMessageLines | src/coverlet.core/Reporters/TeamCityReporter.cs:69 | The message lines of statistics with valid keys read back as those statistics. |
| ServiceMessage.SplitMessageLines | src/coverlet.core/Reporters/TeamCityReporter.cs:69 | The text of message lines with valid keys splits back into those lines. |
| ServiceMessage.ParseReportOfMessageLines | src/coverlet.core/Reporters/TeamCityReporter.cs:69 | The text of message lines with valid keys reads back as those statistics. |
| ServiceMessage.LinesOfParseReport | src/coverlet.core/Reporters/TeamCityReporter.cs:69 | Any text the report reader accepts is exactly the terminated message lines of what it reads. |
| Lines.SplitJoinLines | src/coverlet.core/Reporters/TeamCityReporter.cs:69 | Lines without a line feed, each written with AppendLine, split back into the same lines. This holds for either newline. |
| Lines.JoinSplitLines | src/coverlet.core/Reporters/TeamCityReporter.cs:69 | Any text that splits into lines is exactly those lines, each written with AppendLine. |
| Lines.JoinLinesAppend | src/coverlet.core/Reporters/TeamCityReporter.cs:31-34 | Appending lines to a builder in two rounds gives the concatenation of the two texts. |
| Lines.SplitLines | src/coverlet.core/Reporters/TeamCityReporter.cs:69 | Lines that come out of a split contain no line feed. |

## Left out

- The coverage summaries (`CoverageSummary.CalculateLineCoverage`,
  `CalculateBranchCoverage` and `CalculateMethodCoverage`, lines 25-28) are
  not part of this model. Their results are the inputs `lineCoverage`,
  `branchCoverage` and `methodCoverage`.
- Counts are natural numbers. The source passes them as `double` and formats
  them with `"0.##"`.
  - Fractional values, rounded to two decimals, are floating-point numerics
    and are not modelled.
  - Whole numbers from 10^15 on are not modelled. .NET applies a custom
    format to a double with 15 significant digits, so such numbers are
    rounded and padded with zeros.
- Decimal.NatToDecimal: matches the source's "0.##" rendering only for
  counts below 10^15, where it is the plain digits. From 10^15 on the source
  keeps 15 significant digits: 1000000000000001 prints as
  "1000000000000000", while the model prints all sixteen digits.
- `Environment.NewLine` is a parameter (`LineEnding`) rather than a property
  of the machine.
- The unused `ISourceRootTranslator` argument is dropped.
- The `ReporterBase` base class is left out, and so is the C# exception
  mechanism. The `NotSupportedException` becomes the `NotSupported` variant
  of a `Result`.
- Keys are not escaped, because the source does not escape them. TeamCity's
  `|'` escaping is therefore absent. The reader demands keys free of quotes
  and newlines, and the six constant keys meet that demand
  (`TeamCityReporter.ExpectedKeysValid`).
- `test/coverlet.core.tests/Instrumentation/InstrumenterTests.cs` exercises
  the instrumenter. That component is not part of this model, and the tests
  rely on file copies, temporary directories and binary rewriting.
