/** How a3/pcb.c reads a script, line by line with fgets, and how it counts the lines beforehand. */
module Scripts {

  /** What fopen finds. */
  datatype File = Missing | File(text: string)

  const NEWLINE: char := '\n'
  /** fgets (line, 999, file) stores one character less. */
  const LINE_MAX: nat := 998

  /** How many characters fgets takes: up to a newline, or as many as fit. */
  function Chars(text: string, most: nat): (n: nat)
    ensures n <= |text| && n <= most
    ensures text != [] && most > 0 ==> n > 0
  {
    if text == [] || most == 0 then 0
    else if text[0] == NEWLINE then 1
    else 1 + Chars(text[1..], most - 1)
  }

  /** What fgets returns, one call after the other, to the end of the file. */
  function ReadAll(text: string): seq<string>
    decreases |text|
  {
    if text == [] then [] else
      var n := Chars(text, LINE_MAX);
      [text[..n]] + ReadAll(text[n..])
  }

  /** The newlines that count_lines counts after a character `last`. */
  function Counted(text: string, last: char): nat {
    if text == [] then 0
    else (if text[0] == NEWLINE && last != NEWLINE then 1 else 0) + Counted(text[1..], text[0])
  }

  /** What count_lines promises: one line more than there are newlines, blank lines aside. */
  function LineCount(text: string): nat {
    Counted(text, NEWLINE) + 1
  }

  /** count_lines: -1 for a file that cannot be opened. */
  method CountLines(file: File) returns (count: int)
    ensures count == if file.Missing? then -1 else LineCount(file.text)
  {
    if file.Missing? {
      return -1;
    }
    var text := file.text;
    count := 0;
    var last := NEWLINE;
    var i := 0;
    assert text[0..] == text;
    while i < |text|
      invariant 0 <= i <= |text|
      invariant count + Counted(text[i..], last) == Counted(text, NEWLINE)
    {
      var c := text[i];
      assert text[i..][1..] == text[i + 1..];
      if c == NEWLINE && last != NEWLINE {
        count := count + 1;
      }
      last := c;
      i := i + 1;
    }
    return count + 1;
  }

  /** The lines of the script that are blank. */
  function Blanks(lines: seq<string>): nat {
    if lines == [] then 0 else (if lines[0] == [NEWLINE] then 1 else 0) + Blanks(lines[1..])
  }

  /** Every line fits the buffer. */
  predicate Fits(lines: seq<string>) {
    forall i :: 0 <= i < |lines| ==> |lines[i]| < LINE_MAX
  }

  /** Nothing follows the last newline. */
  predicate EndsInNewline(text: string) {
    text == [] || text[|text| - 1] == NEWLINE
  }

  /** A line that fits holds a newline at its end or is the end of the file. */
  lemma {:induction false} OneLine(text: string, most: nat, last: char)
    requires text != [] && Chars(text, most) < most
    ensures var n := Chars(text, most);
            && (text[n - 1] == NEWLINE || n == |text|)
            && (text[n - 1] == NEWLINE ==>
                  Counted(text, last) == (if n == 1 && last == NEWLINE then 0 else 1) + Counted(text[n..], NEWLINE))
            && (text[n - 1] != NEWLINE ==> Counted(text, last) == 0)
    decreases |text|
  {
    if text[0] != NEWLINE {
      if |text| == 1 {
        assert Counted(text[1..], text[0]) == 0;
      } else {
        OneLine(text[1..], most - 1, text[0]);
        var n := Chars(text[1..], most - 1);
        assert text[1..][n..] == text[n + 1..];
      }
    }
  }

  /** count_lines is one too high for a script that ends in a newline, and one too low for every blank line. */
  lemma {:induction false} CountAgainstRead(text: string)
    requires Fits(ReadAll(text))
    ensures LineCount(text) + Blanks(ReadAll(text)) == |ReadAll(text)| + (if EndsInNewline(text) then 1 else 0)
    decreases |text|
  {
    if text != [] {
      var n := Chars(text, LINE_MAX);
      var rest := text[n..];
      var lines := ReadAll(text);
      assert lines[0] == text[..n] && lines[1..] == ReadAll(rest);
      assert |lines[0]| < LINE_MAX;
      assert Fits(ReadAll(rest)) by {
        assert forall i :: 0 <= i < |ReadAll(rest)| ==> ReadAll(rest)[i] == lines[i + 1];
      }
      OneLine(text, LINE_MAX, NEWLINE);
      CountAgainstRead(rest);
    }
  }

  /** Nothing is lost or added by reading in lines. */
  function Joined(lines: seq<string>): string {
    if lines == [] then [] else lines[0] + Joined(lines[1..])
  }

  lemma {:induction false} ReadWhole(text: string)
    ensures Joined(ReadAll(text)) == text
    decreases |text|
  {
    if text != [] {
      var n := Chars(text, LINE_MAX);
      ReadWhole(text[n..]);
      assert ReadAll(text)[1..] == ReadAll(text[n..]);
      assert text == text[..n] + text[n..];
    }
  }

  /** Where fgets stops: just after a newline, at the end of the file, or after 998 characters. */
  lemma {:induction false} CharsStop(text: string, most: nat)
    requires text != [] && most > 0
    ensures var n := Chars(text, most);
            && 0 < n <= most
            && (text[n - 1] == NEWLINE || n == |text| || n == most)
            && forall i :: 0 <= i < n - 1 ==> text[i] != NEWLINE
  {
    if text[0] != NEWLINE && |text| > 1 && most > 1 {
      CharsStop(text[1..], most - 1);
    }
  }

  /** Every line holds at most one newline, at its end, and is otherwise full or the last one. */
  lemma {:induction false} ReadShape(text: string, i: nat)
    requires i < |ReadAll(text)|
    ensures var line := ReadAll(text)[i];
            && 0 < |line| <= 998
            && (forall k :: 0 <= k < |line| - 1 ==> line[k] != NEWLINE)
            && (line[|line| - 1] == NEWLINE || |line| == 998 || i == |ReadAll(text)| - 1)
    decreases |text|
  {
    var n := Chars(text, LINE_MAX);
    CharsStop(text, LINE_MAX);
    if i > 0 {
      ReadShape(text[n..], i - 1);
    } else if n == |text| {
      assert text[n..] == [];
    }
  }
}
