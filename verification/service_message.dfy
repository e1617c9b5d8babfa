/**
 TeamCity "buildStatisticValue" service messages: one message per line,
   ##teamcity[buildStatisticValue key='K' value='V']
 with K a statistic key and V a whole-number value in plain decimal digits.
 */
module ServiceMessage {
  import opened Wrappers
  import opened Decimal
  import opened Lines

  const Prefix: string := "##teamcity[buildStatisticValue key='"
  const ValueInfix: string := "' value='"
  const Suffix: string := "']"

  /** One reported statistic: a key and its value. */
  datatype Statistic = Statistic(key: string, value: nat)

  /** A key the message can carry unescaped: no quote (which would end the
      attribute) and no line feed (which would end the message). */
  predicate ValidKey(key: string) {
    '\'' !in key && '\n' !in key
  }

  /** The text of one message, without its line terminator. */
  function Message(key: string, value: nat): string {
    Prefix + key + ValueInfix + NatToDecimal(value) + Suffix
  }

  /** What follows the fixed text p at the start of s, if s starts with it. */
  function StripPrefix(p: string, s: string): (r: Option<string>)
    ensures r.Some? <==> p <= s
    ensures r.Some? ==> s == p + r.value
  {
    if |p| <= |s| && s[..|p|] == p then
      assert s == s[..|p|] + s[|p|..];
      Some(s[|p|..])
    else None
  }

  /** Cuts s before its first quote: the part without quotes, then the rest,
      which is empty or starts with the quote. */
  function SplitAtQuote(s: string): (r: (string, string))
    ensures r.0 + r.1 == s
    ensures '\'' !in r.0
    ensures r.1 == [] || r.1[0] == '\''
  {
    var i := IndexOf(s, '\'');
    assert s == s[..i] + s[i..];
    (s[..i], s[i..])
  }

  /** Reads one message line back; any deviation from the exact shape is rejected. */
  function ParseMessage(line: string): (r: Option<Statistic>)
  {
    match StripPrefix(Prefix, line)
    case None => None
    case Some(rest) => ParseKeyAndValue(rest)
  }

  /** Reads what follows the prefix: the key up to the first quote, the value
      attribute, and the closing suffix. */
  function ParseKeyAndValue(rest: string): Option<Statistic> {
    var (key, tail) := SplitAtQuote(rest);
    match StripPrefix(ValueInfix, tail)
    case None => None
    case Some(v) =>
      match ParseValue(v)
      case None => None
      case Some(n) => Some(Statistic(key, n))
  }

  /** Reads the value up to the first quote, which must start the closing suffix. */
  function ParseValue(v: string): Option<nat> {
    var (digits, end) := SplitAtQuote(v);
    if end != Suffix then None else ParseDecimal(digits)
  }

  /** Reads every line of a sequence with the same line reader; fails as soon as one line fails. */
  function ParseEach<U>(lines: seq<string>, parse: string -> Option<U>): (r: Option<seq<U>>)
    ensures r.Some? ==> |r.value| == |lines|
  {
    if |lines| == 0 then Some([])
    else
      var head := parse(lines[0]);
      var rest := ParseEach(lines[1..], parse);
      if head.Some? && rest.Some? then Some([head.value] + rest.value) else None
  }

  /** Reads every message of a sequence of lines. */
  function ParseMessages(lines: seq<string>): Option<seq<Statistic>> {
    ParseEach(lines, ParseMessage)
  }

  /** Splits a text into lines and reads each line as a message. */
  function ParseReport(text: string, eol: LineEnding): Option<seq<Statistic>> {
    match SplitLines(text, eol)
    case None => None
    case Some(lines) => ParseMessages(lines)
  }

  /** The first quote after a quote-free text is the one that follows it. */
  lemma SplitAtQuoteAppend(a: string, b: string)
    requires '\'' !in a
    requires b == [] || b[0] == '\''
    ensures SplitAtQuote(a + b) == (a, b)
  {
    var (x, y) := SplitAtQuote(a + b);
    assert forall k :: 0 <= k < |x| ==> (a + b)[k] == x[k];
    if |b| > 0 {
      assert (a + b)[|a|] == '\'';
    }
    assert x == (a + b)[..|x|] == a;
    assert y == (a + b)[|x|..] == b;
  }

  lemma StripPrefixAppend(p: string, t: string)
    ensures StripPrefix(p, p + t) == Some(t)
  {
    assert (p + t)[..|p|] == p;
    assert (p + t)[|p|..] == t;
  }

  lemma DigitsHaveNoQuote(s: string)
    requires AllDigits(s)
    ensures '\'' !in s
  {
  }

  lemma ParseValueOfDigits(value: nat)
    ensures ParseValue(NatToDecimal(value) + Suffix) == Some(value)
  {
    var digits := NatToDecimal(value);
    DigitsHaveNoQuote(digits);
    SplitAtQuoteAppend(digits, Suffix);
    ParseNatToDecimal(value);
  }

  lemma DigitsOfParseValue(v: string, value: nat)
    requires ParseValue(v) == Some(value)
    ensures v == NatToDecimal(value) + Suffix
  {
    var (digits, end) := SplitAtQuote(v);
    NatToDecimalOfParse(digits, value);
  }

  lemma ParseKeyAndValueOf(key: string, value: nat)
    requires ValidKey(key)
    ensures ParseKeyAndValue(key + (ValueInfix + (NatToDecimal(value) + Suffix))) == Some(Statistic(key, value))
  {
    var v := NatToDecimal(value) + Suffix;
    var tail := ValueInfix + v;
    SplitAtQuoteAppend(key, tail);
    StripPrefixAppend(ValueInfix, v);
    ParseValueOfDigits(value);
  }

  lemma KeyAndValueOfParse(rest: string, st: Statistic)
    requires ParseKeyAndValue(rest) == Some(st)
    ensures rest == st.key + (ValueInfix + (NatToDecimal(st.value) + Suffix))
  {
    var (key, tail) := SplitAtQuote(rest);
    var v := StripPrefix(ValueInfix, tail).value;
    DigitsOfParseValue(v, st.value);
  }

  lemma MessageShape(key: string, value: nat)
    ensures Message(key, value) == Prefix + (key + (ValueInfix + (NatToDecimal(value) + Suffix)))
  {
  }

  /** A message reads back as the statistic it was written from. */
  lemma ParseMessageOfMessage(key: string, value: nat)
    requires ValidKey(key)
    ensures ParseMessage(Message(key, value)) == Some(Statistic(key, value))
  {
    var rest := key + (ValueInfix + (NatToDecimal(value) + Suffix));
    MessageShape(key, value);
    StripPrefixAppend(Prefix, rest);
    ParseKeyAndValueOf(key, value);
  }

  /** Every line the parser accepts is exactly the message of what it reads. */
  lemma MessageOfParseMessage(line: string, st: Statistic)
    requires ParseMessage(line) == Some(st)
    ensures Message(st.key, st.value) == line
  {
    var rest := StripPrefix(Prefix, line).value;
    KeyAndValueOfParse(rest, st);
    MessageShape(st.key, st.value);
  }

  /** A message with a valid key fits on one line. */
  lemma MessageHasNoNewline(key: string, value: nat)
    requires ValidKey(key)
    ensures '\n' !in Message(key, value)
  {
  }

  /** Each accepted line is the message of the statistic read from it. */
  lemma {:induction false} MessagesOfParseMessages(lines: seq<string>, sts: seq<Statistic>)
    requires ParseMessages(lines) == Some(sts)
    ensures |sts| == |lines|
    ensures forall k :: 0 <= k < |lines| ==> Message(sts[k].key, sts[k].value) == lines[k]
    decreases |lines|
  {
    if |lines| > 0 {
      var rest := ParseEach(lines[1..], ParseMessage).value;
      assert sts == [sts[0]] + rest;
      assert sts[1..] == rest;
      MessageOfParseMessage(lines[0], sts[0]);
      MessagesOfParseMessages(lines[1..], rest);
      forall k | 1 <= k < |lines|
        ensures Message(sts[k].key, sts[k].value) == lines[k]
      {
        assert lines[1..][k - 1] == lines[k];
        assert rest[k - 1] == sts[k];
      }
    }
  }

  /** The message lines of a list of statistics, one per statistic. */
  function MessageLines(sts: seq<Statistic>): (lines: seq<string>)
    ensures |lines| == |sts|
  {
    seq(|sts|, k requires 0 <= k < |sts| => Message(sts[k].key, sts[k].value))
  }

  /** A text that reads as a list of statistics is made of exactly their message
      lines, each terminated. */
  lemma LinesOfParseReport(text: string, eol: LineEnding, sts: seq<Statistic>)
    requires ParseReport(text, eol) == Some(sts)
    ensures SplitLines(text, eol) == Some(MessageLines(sts))
    ensures JoinLines(MessageLines(sts), eol) == text
  {
    var lines := SplitLines(text, eol).value;
    MessagesOfParseMessages(lines, sts);
    JoinSplitLines(text, eol, lines);
    assert lines == MessageLines(sts);
  }

  /** Statistics whose keys can all be written unescaped. */
  predicate ValidKeys(sts: seq<Statistic>) {
    forall k :: 0 <= k < |sts| ==> ValidKey(sts[k].key)
  }

  lemma {:induction false} ParseMessagesOfMessageLines(sts: seq<Statistic>)
    requires ValidKeys(sts)
    ensures ParseMessages(MessageLines(sts)) == Some(sts)
    decreases |sts|
  {
    if |sts| > 0 {
      var lines := MessageLines(sts);
      assert lines[1..] == MessageLines(sts[1..]);
      ParseMessagesOfMessageLines(sts[1..]);
      ParseMessageOfMessage(sts[0].key, sts[0].value);
      assert [sts[0]] + sts[1..] == sts;
    }
  }

  /** The terminated message lines of statistics with valid keys read back as
      exactly those statistics. */
  lemma ParseReportOfMessageLines(sts: seq<Statistic>, eol: LineEnding)
    requires ValidKeys(sts)
    ensures ParseReport(JoinLines(MessageLines(sts), eol), eol) == Some(sts)
  {
    SplitMessageLines(sts, eol);
    ParseMessagesOfMessageLines(sts);
  }

  /** The terminated message lines of statistics with valid keys split back
      into those lines. */
  lemma SplitMessageLines(sts: seq<Statistic>, eol: LineEnding)
    requires ValidKeys(sts)
    ensures SplitLines(JoinLines(MessageLines(sts), eol), eol) == Some(MessageLines(sts))
  {
    var lines := MessageLines(sts);
    forall k | 0 <= k < |lines|
      ensures '\n' !in lines[k]
    {
      MessageHasNoNewline(sts[k].key, sts[k].value);
    }
    SplitJoinLines(lines, eol);
  }

  /** Distinct statistics give distinct messages. */
  lemma MessageInjective(a: Statistic, b: Statistic)
    requires ValidKey(a.key) && ValidKey(b.key)
    ensures Message(a.key, a.value) == Message(b.key, b.value) <==> a == b
  {
    ParseMessageOfMessage(a.key, a.value);
    ParseMessageOfMessage(b.key, b.value);
  }
}
