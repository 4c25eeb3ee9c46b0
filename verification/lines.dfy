/**
 Iterating over a text file and `readline`: the file as a sequence of lines, each keeping its
 newline, only the last one possibly without.
 */
module Lines {

  /** The end (exclusive) of the first line of `text`: just past its first newline, or the end of the text. */
  function LineEnd(text: string): (i: nat)
    requires |text| > 0
    ensures 0 < i <= |text|
  {
    if text[0] == '\n' || |text| == 1 then 1 else 1 + LineEnd(text[1..])
  }

  /** The first line ends at the first newline: none before it, and one at its end whenever the text has one. */
  lemma {:induction false} LineEndShape(text: string)
    requires |text| > 0
    ensures var i := LineEnd(text);
      && (forall k :: 0 <= k < i - 1 ==> text[k] != '\n')
      && (i < |text| ==> text[i - 1] == '\n')
      && ('\n' in text ==> text[i - 1] == '\n')
  {
    if text[0] != '\n' && |text| > 1 {
      LineEndShape(text[1..]);
      assert forall k :: 1 <= k < |text| ==> text[k] == text[1..][k - 1];
      assert '\n' in text ==> '\n' in text[1..];
    }
  }

  /** A line as the file iteration yields it: non-empty, and its own first line. */
  predicate IsFileLine(line: string) {
    |line| > 0 && LineEnd(line) == |line|
  }

  /** A file line that ends in its newline. */
  predicate IsTerminatedLine(line: string) {
    IsFileLine(line) && line[|line| - 1] == '\n'
  }

  /** A file line is exactly a non-empty text with no newline before its last character. */
  lemma FileLineMeaning(line: string)
    ensures IsFileLine(line) <==> |line| > 0 && forall k :: 0 <= k < |line| - 1 ==> line[k] != '\n'
  {
    if |line| > 0 {
      LineEndShape(line);
    }
  }

  /** Text without a newline does not end the first line: the line goes on into what follows. */
  lemma {:induction false} LineEndAfterText(text: string, rest: string)
    requires '\n' !in text && |rest| > 0
    ensures LineEnd(text + rest) == |text| + LineEnd(rest)
  {
    if |text| > 0 {
      var t := text + rest;
      assert t[0] == text[0];
      assert t[1..] == text[1..] + rest;
      assert '\n' !in text[1..] by {
        assert text == [text[0]] + text[1..];
      }
      LineEndAfterText(text[1..], rest);
    } else {
      assert text + rest == rest;
    }
  }

  /** Text without a newline, then a newline, is one terminated line. */
  lemma TerminatedBody(body: string)
    requires '\n' !in body
    ensures IsTerminatedLine(body + "\n")
  {
    LineEndAfterText(body, "\n");
  }

  /** Text without a newline glued to the front of a terminated line is one terminated line. */
  lemma GluedLineTerminated(text: string, line: string)
    requires '\n' !in text && IsTerminatedLine(line)
    ensures IsTerminatedLine(text + line)
  {
    LineEndAfterText(text, line);
  }

  /** The first line of a terminated line and more is that line. */
  lemma {:induction false} LineEndOfTerminated(line: string, rest: string)
    requires IsTerminatedLine(line)
    ensures LineEnd(line + rest) == |line|
  {
    var t := line + rest;
    assert t[0] == line[0];
    if |line| > 1 {
      assert t[1..] == line[1..] + rest;
      assert line[1..][|line| - 2] == line[|line| - 1];
      LineEndOfTerminated(line[1..], rest);
    }
  }

  /** The first line of a text is a file line. */
  lemma {:induction false} LineEndPrefix(text: string)
    requires |text| > 0
    ensures IsFileLine(text[..LineEnd(text)])
  {
    var i := LineEnd(text);
    var line := text[..i];
    assert line[0] == text[0];
    if i > 1 {
      assert line[1..] == text[1..][..i - 1];
      LineEndPrefix(text[1..]);
    }
  }

  function Concat(lines: seq<string>): string {
    if |lines| == 0 then "" else lines[0] + Concat(lines[1..])
  }

  /**
   Iterating over a text file: the lines in order, each keeping its newline; concatenating them
   gives the text back.
   */
  function SplitLines(text: string): (lines: seq<string>)
    ensures Concat(lines) == text
    decreases |text|
  {
    if |text| == 0 then []
    else
      var i := LineEnd(text);
      assert text[..i] + text[i..] == text;
      [text[..i]] + SplitLines(text[i..])
  }

  /** Every line of a file is a file line, and only the last may lack its newline. */
  lemma {:induction false} SplitLinesShape(text: string)
    ensures forall k :: 0 <= k < |SplitLines(text)| ==> IsFileLine(SplitLines(text)[k])
    ensures forall k :: 0 <= k < |SplitLines(text)| - 1 ==> IsTerminatedLine(SplitLines(text)[k])
    decreases |text|
  {
    if |text| > 0 {
      var i := LineEnd(text);
      LineEndShape(text);
      LineEndPrefix(text);
      SplitLinesShape(text[i..]);
      var lines := SplitLines(text);
      assert lines[0] == text[..i];
      assert forall k :: 1 <= k < |lines| ==> lines[k] == SplitLines(text[i..])[k - 1];
    }
  }

  /** Reading text that starts with a terminated line yields that line, then the lines of the rest. */
  lemma SplitLinesCons(line: string, rest: string)
    requires IsTerminatedLine(line)
    ensures SplitLines(line + rest) == [line] + SplitLines(rest)
  {
    var t := line + rest;
    LineEndOfTerminated(line, rest);
    assert t[..|line|] == line;
    assert t[|line|..] == rest;
  }

  /** A terminated line on its own reads back as that one line. */
  lemma SplitLinesOne(line: string)
    requires IsTerminatedLine(line)
    ensures SplitLines(line) == [line]
  {
    SplitLinesCons(line, "");
    assert line + "" == line;
  }

  /** Terminated lines written one after the other are read back as the same lines. */
  lemma {:induction false} SplitLinesConcat(lines: seq<string>)
    requires forall k :: 0 <= k < |lines| ==> IsTerminatedLine(lines[k])
    ensures SplitLines(Concat(lines)) == lines
  {
    if |lines| > 0 {
      SplitLinesConcat(lines[1..]);
      SplitLinesCons(lines[0], Concat(lines[1..]));
    }
  }

  /** Three terminated lines written one after the other are read back as those lines. */
  lemma ThreeLines(a: string, b: string, c: string)
    requires IsTerminatedLine(a) && IsTerminatedLine(b) && IsTerminatedLine(c)
    ensures SplitLines(a + (b + c)) == [a, b, c]
  {
    SplitLinesOne(c);
    SplitLinesCons(b, c);
    SplitLinesCons(a, b + c);
  }

  /**
   `f.readline()` on the file: its first line with the newline, the whole text when it has no
   newline, the empty string for an empty file.
   */
  function FirstLine(text: string): (line: string)
    ensures line <= text
    ensures |text| > 0 ==> IsFileLine(line)
    ensures '\n' in text ==> IsTerminatedLine(line)
    ensures '\n' !in text ==> line == text
  {
    if |text| == 0 then ""
    else
      LineEndShape(text);
      LineEndPrefix(text);
      text[..LineEnd(text)]
  }

  /** `readline` gives the first of the lines the file iteration yields. */
  lemma FirstLineIsFirstOfLines(text: string)
    requires |text| > 0
    ensures FirstLine(text) == SplitLines(text)[0]
  {
  }
}
