/**
 Lines of text as StringBuilder.AppendLine writes them: every line is
 followed by the platform's newline sequence, Environment.NewLine, which is
 "\n" on Unix-like systems and "\r\n" on Windows.
 */
module Lines {
  import opened Wrappers

  datatype LineEnding = Lf | CrLf {
    function Text(): (t: string)
      ensures |t| > 0 && t[|t| - 1] == '\n'
      ensures forall k :: 0 <= k < |t| - 1 ==> t[k] != '\n'
    {
      match this
      case Lf => "\n"
      case CrLf => "\r\n"
    }
  }

  /** Position of the first c in s, or |s| when there is none. */
  function IndexOf(s: string, c: char): (i: nat)
    ensures i <= |s|
    ensures i < |s| ==> s[i] == c
    ensures forall j :: 0 <= j < i ==> s[j] != c
  {
    if |s| == 0 then 0
    else if s[0] == c then 0
    else 1 + IndexOf(s[1..], c)
  }

  /** No line may contain the character that ends a line. */
  predicate NoNewline(lines: seq<string>) {
    forall k :: 0 <= k < |lines| ==> '\n' !in lines[k]
  }

  /** The text of a sequence of AppendLine calls. */
  function JoinLines(lines: seq<string>, eol: LineEnding): string {
    if |lines| == 0 then "" else lines[0] + eol.Text() + JoinLines(lines[1..], eol)
  }

  /** The content of a line once its terminator up to the line feed is removed:
      for CrLf the carriage return must be there. */
  function StripEnding(raw: string, eol: LineEnding): (r: Option<string>)
    ensures r.Some? ==> r.value + eol.Text() == raw + "\n"
  {
    match eol
    case Lf => Some(raw)
    case CrLf => if |raw| > 0 && raw[|raw| - 1] == '\r' then Some(raw[..|raw| - 1]) else None
  }

  /** Splits text into the lines it is made of; fails when the last line is not
      terminated or, for CrLf, a line feed is not preceded by a carriage return. */
  function SplitLines(text: string, eol: LineEnding): (r: Option<seq<string>>)
    ensures r.Some? ==> NoNewline(r.value)
    decreases |text|
  {
    if |text| == 0 then Some([])
    else
      var i := IndexOf(text, '\n');
      if i == |text| then None
      else
        match StripEnding(text[..i], eol)
        case None => None
        case Some(l) =>
          match SplitLines(text[i + 1..], eol)
          case None => None
          case Some(rest) => Some([l] + rest)
  }

  lemma {:induction false} SplitJoinLines(lines: seq<string>, eol: LineEnding)
    requires NoNewline(lines)
    ensures SplitLines(JoinLines(lines, eol), eol) == Some(lines)
    decreases |lines|
  {
    if |lines| > 0 {
      var l := lines[0];
      var rest := JoinLines(lines[1..], eol);
      var text := JoinLines(lines, eol);
      var t := eol.Text();
      assert text == (l + t) + rest;
      var i := |l| + |t| - 1;
      assert text[i] == '\n';
      assert forall j :: 0 <= j < i ==> text[j] != '\n' by {
        forall j | 0 <= j < i ensures text[j] != '\n' {
          if j < |l| {
            assert text[j] == l[j];
          } else {
            assert text[j] == t[j - |l|];
          }
        }
      }
      assert IndexOf(text, '\n') == i;
      assert text[i + 1..] == rest;
      match eol {
        case Lf =>
          assert text[..i] == l;
        case CrLf =>
          assert text[..i] == l + "\r";
          assert (l + "\r")[..|l|] == l;
      }
      assert StripEnding(text[..i], eol) == Some(l);
      SplitJoinLines(lines[1..], eol);
      assert [l] + lines[1..] == lines;
    }
  }

  lemma {:induction false} JoinSplitLines(text: string, eol: LineEnding, lines: seq<string>)
    requires SplitLines(text, eol) == Some(lines)
    ensures JoinLines(lines, eol) == text
    decreases |text|
  {
    if |text| > 0 {
      var i := IndexOf(text, '\n');
      var raw := text[..i];
      var l := StripEnding(raw, eol).value;
      var rest := SplitLines(text[i + 1..], eol).value;
      var tail := text[i + 1..];
      assert lines == [l] + rest;
      assert lines[0] == l && lines[1..] == rest;
      JoinSplitLines(tail, eol, rest);
      var head := l + eol.Text();
      assert head == raw + "\n";
      assert JoinLines(lines, eol) == head + tail;
      CutAround(text, i);
    }
  }

  /** A text is what precedes position i, the character at i, and what follows it. */
  lemma CutAround(s: string, i: nat)
    requires i < |s|
    ensures s == s[..i] + [s[i]] + s[i + 1..]
  {
  }

  /** The text of a single line is that line and its ending. */
  lemma JoinOneLine(line: string, eol: LineEnding)
    ensures JoinLines([line], eol) == line + eol.Text()
  {
    assert [line][1..] == [];
  }

  /** The two halves of a concatenation can be cut back out of it. */
  lemma AppendSlices<T>(a: seq<T>, b: seq<T>)
    ensures (a + b)[..|a|] == a
    ensures (a + b)[|a|..] == b
  {
  }

  /** Joining two lists of lines concatenates their texts. */
  lemma {:induction false} JoinLinesAppend(la: seq<string>, lb: seq<string>, eol: LineEnding)
    ensures JoinLines(la + lb, eol) == JoinLines(la, eol) + JoinLines(lb, eol)
    decreases |la|
  {
    if |la| > 0 {
      assert (la + lb)[1..] == la[1..] + lb;
      JoinLinesAppend(la[1..], lb, eol);
    } else {
      assert la + lb == lb;
    }
  }
}
