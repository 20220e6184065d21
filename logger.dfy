/**
  The report log: every line handed to `Out` is echoed to the console and appended,
  with the platform's line terminator, to an in-memory buffer that is written to the
  report file at the end of the run.
 */
module Log {

  /** The lines, each followed by `newLine`, one after another. */
  function Unlines(lines: seq<string>, newLine: string): string {
    if lines == [] then [] else lines[0] + newLine + Unlines(lines[1..], newLine)
  }

  /** Logging one more line appends it and its terminator to the text of the earlier ones. */
  lemma {:induction false} UnlinesSnoc(lines: seq<string>, line: string, newLine: string)
    ensures Unlines(lines + [line], newLine) == Unlines(lines, newLine) + line + newLine
  {
    if lines != [] {
      assert (lines + [line])[1..] == lines[1..] + [line];
      UnlinesSnoc(lines[1..], line, newLine);
    }
  }

  /** The text of two batches of lines is the text of the first followed by that of the second. */
  lemma {:induction false} UnlinesConcat(a: seq<string>, b: seq<string>, newLine: string)
    ensures Unlines(a + b, newLine) == Unlines(a, newLine) + Unlines(b, newLine)
  {
    if a == [] {
      assert a + b == b;
    } else {
      assert (a + b)[1..] == a[1..] + b;
      UnlinesConcat(a[1..], b, newLine);
    }
  }

  class Logger {
    /** `Environment.NewLine` of the platform the program runs on. */
    const newLine: string
    /** The accumulated report text (`LogString`). */
    var logString: string
    /** The lines handed to `Out` so far, in order: what the console was shown. */
    ghost var lines: seq<string>

    /** The report text is exactly the logged lines, each with its terminator. */
    ghost predicate Valid()
      reads this
    {
      logString == Unlines(lines, newLine)
    }

    constructor (newLine: string)
      ensures Valid()
      ensures this.newLine == newLine && logString == [] && lines == []
    {
      this.newLine := newLine;
      logString := [];
      lines := [];
    }

    /** `Logger.Out`: appends `str` and the terminator; `writeToFile` changes nothing. */
    method Out(str: string, writeToFile: bool := true)
      requires Valid()
      modifies this
      ensures Valid()
      ensures logString == old(logString) + str + newLine
      ensures lines == old(lines) + [str]
    {
      UnlinesSnoc(lines, str, newLine);
      logString := logString + str + newLine;
      lines := lines + [str];
    }
  }
}
