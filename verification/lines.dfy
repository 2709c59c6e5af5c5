/** Line enumeration (`String.enumerateLines`): a document is cut into lines at
    each line feed, a carriage return directly before the line feed belongs to
    the terminator, and a final terminator does not start an extra empty line. */
module Lines {
  import opened Strings

  /** The text ends with a carriage return. Before a line feed, that carriage
      return belongs to a CR LF terminator. */
  predicate EndsWithCR(line: string) {
    |line| > 0 && line[|line| - 1] == '\r'
  }

  /** Removes the carriage return of a CR LF terminator from the text before the LF. */
  function DropCR(line: string): (r: string)
    ensures !EndsWithCR(line) ==> r == line
    ensures EndsWithCR(line) ==> r + "\r" == line
  {
    if EndsWithCR(line) then line[..|line| - 1] else line
  }

  /** The lines of `s` in order, without their terminators. */
  function SplitLines(s: string): (lines: seq<string>)
    ensures forall i :: 0 <= i < |lines| ==> NoneIn(lines[i], {'\n'})
    ensures |lines| == 0 <==> |s| == 0
    decreases |s|
  {
    if |s| == 0 then []
    else
      var i := SkipOut(s, {'\n'}, 0);
      if i == |s| then [s]
      else [DropCR(s[..i])] + SplitLines(s[i + 1..])
  }

  /** Each line followed by `terminator`, concatenated. */
  function Terminated(lines: seq<string>, terminator: string): string
    decreases |lines|
  {
    if |lines| == 0 then "" else lines[0] + terminator + Terminated(lines[1..], terminator)
  }

  /** Terminating one more line appends it and its terminator. */
  lemma {:induction false} TerminatedSnoc(lines: seq<string>, line: string, terminator: string)
    ensures Terminated(lines + [line], terminator) == Terminated(lines, terminator) + line + terminator
    decreases |lines|
  {
    if |lines| == 0 {
      assert lines + [line] == [line];
    } else {
      assert (lines + [line])[1..] == lines[1..] + [line];
      TerminatedSnoc(lines[1..], line, terminator);
    }
  }

  /** The LF-free text before the first LF of `s`, when `s` starts with `line` and an LF. */
  lemma FirstLineBreak(s: string, line: string, rest: string)
    requires NoneIn(line, {'\n'})
    requires s == line + "\n" + rest
    ensures SkipOut(s, {'\n'}, 0) == |line|
    ensures s[..|line|] == line && s[|line| + 1..] == rest
  {
    assert s[|line|] == '\n';
    assert forall k :: 0 <= k < |line| ==> s[k] == line[k];
  }

  /** Round trip: enumerating the lines of LF-terminated text gives back the
      lines, provided no line contains an LF or ends in a CR. */
  lemma {:induction false} SplitLinesTerminated(lines: seq<string>)
    requires forall i :: 0 <= i < |lines| ==> NoneIn(lines[i], {'\n'}) && !EndsWithCR(lines[i])
    ensures SplitLines(Terminated(lines, "\n")) == lines
    decreases |lines|
  {
    if |lines| > 0 {
      var s := Terminated(lines, "\n");
      var rest := Terminated(lines[1..], "\n");
      FirstLineBreak(s, lines[0], rest);
      SplitLinesTerminated(lines[1..]);
      assert lines == [lines[0]] + lines[1..];
    }
  }

  /** Round trip for CR LF terminators: they yield the same lines as LF alone. */
  lemma {:induction false} SplitLinesCRLF(lines: seq<string>)
    requires forall i :: 0 <= i < |lines| ==> NoneIn(lines[i], {'\n'})
    ensures SplitLines(Terminated(lines, "\r\n")) == lines
    decreases |lines|
  {
    if |lines| > 0 {
      var s := Terminated(lines, "\r\n");
      var rest := Terminated(lines[1..], "\r\n");
      var withCR := lines[0] + "\r";
      assert s == withCR + "\n" + rest;
      assert NoneIn(withCR, {'\n'}) by {
        assert forall k :: 0 <= k < |lines[0]| ==> withCR[k] == lines[0][k];
      }
      FirstLineBreak(s, withCR, rest);
      assert withCR[..|withCR| - 1] == lines[0];
      assert SplitLines(s) == [DropCR(withCR)] + SplitLines(rest);
      SplitLinesCRLF(lines[1..]);
      assert lines == [lines[0]] + lines[1..];
    }
  }

  /** A non-empty text without a line feed is one line, kept whole. */
  lemma SplitLinesSingle(line: string)
    requires |line| > 0 && NoneIn(line, {'\n'})
    ensures SplitLines(line) == [line]
  {
    var i := SkipOut(line, {'\n'}, 0);
    assert i == |line|;
  }

  lemma Regroup(a: string, b: string, c: string)
    ensures (a + b) + c == a + (b + c)
  {
  }

  /** Round trip with an unterminated last line: text that does not end in a
      line feed yields its final line too. */
  lemma {:induction false} SplitLinesUnterminated(lines: seq<string>, last: string)
    requires forall i :: 0 <= i < |lines| ==> NoneIn(lines[i], {'\n'}) && !EndsWithCR(lines[i])
    requires |last| > 0 && NoneIn(last, {'\n'})
    ensures SplitLines(Terminated(lines, "\n") + last) == lines + [last]
    decreases |lines|
  {
    if |lines| == 0 {
      assert Terminated(lines, "\n") + last == last;
      SplitLinesSingle(last);
    } else {
      var head, tail := lines[0] + "\n", Terminated(lines[1..], "\n");
      var rest := tail + last;
      var s := Terminated(lines, "\n") + last;
      Regroup(head, tail, last);
      FirstLineBreak(s, lines[0], rest);
      SplitLinesUnterminated(lines[1..], last);
      assert lines + [last] == [lines[0]] + (lines[1..] + [last]);
    }
  }
}
