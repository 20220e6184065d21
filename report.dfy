/**
  The correspondent section of the report: one line per group among the first five of
  a ranking, `{0,8} emails {2} {1}` with the group's count right-aligned in eight
  columns, the direction text and the group's key.
 */
module Report {
  import opened Wrappers
  import opened Text
  import opened Ranking
  import opened Log

  function Separator(text: string): string {
    " emails " + text + " "
  }

  /** `String.Format("{0,8} emails {2} {1}", mail.Count(), mail.Key, text)`. */
  function EmailerLine(g: Group, text: string): (line: string)
    ensures |line| >= 8 + |Separator(text)| + |g.key|
    ensures line[|line| - |Separator(text)| - |g.key|..] == Separator(text) + g.key
    ensures var d := Digits(g.count); var w := |line| - |Separator(text)| - |g.key|;
      && w == (if |d| < 8 then 8 else |d|)
      && line[w - |d|..w] == d
      && (forall i :: 0 <= i < w - |d| ==> line[i] == ' ')
  {
    PadLeft(Digits(g.count), 8, ' ') + (Separator(text) + g.key)
  }

  /** Reads a report line back: leading blanks, the count's digits, the separator, then the key. */
  function ParseEmailerLine(line: string, text: string): Option<Group> {
    var rest := line[Span(line, IsSpace)..];
    var n := Span(rest, IsDigit);
    var sep := Separator(text);
    if n == 0 || |rest| < n + |sep| || rest[n..n + |sep|] != sep then None
    else
      assert AllDigits(rest[..n]);
      Some(Group(rest[n + |sep|..], ParseDigits(rest[..n])))
  }

  lemma SkipPadding(pad: string, digits: string, tail: string)
    requires forall i :: 0 <= i < |pad| ==> pad[i] == ' '
    requires digits != [] && AllDigits(digits)
    ensures var line := pad + (digits + tail); line[Span(line, IsSpace)..] == digits + tail
  {
    SpanOfConcat(pad, digits + tail, IsSpace);
  }

  lemma ParseAfterPadding(digits: string, text: string, key: string)
    requires digits != [] && AllDigits(digits)
    ensures var rest := digits + (Separator(text) + key);
      Span(rest, IsDigit) == |digits|
      && rest[..|digits|] == digits
      && rest[|digits|..|digits| + |Separator(text)|] == Separator(text)
      && rest[|digits| + |Separator(text)|..] == key
  {
    var sep := Separator(text);
    var rest := digits + (sep + key);
    assert (sep + key)[0] == ' ';
    SpanOfConcat(digits, sep + key, IsDigit);
    assert rest[|digits|..] == sep + key;
  }

  lemma ParseEmailerLineOf(line: string, text: string, digits: string, key: string)
    requires digits != [] && AllDigits(digits)
    requires line[Span(line, IsSpace)..] == digits + (Separator(text) + key)
    ensures ParseEmailerLine(line, text) == Some(Group(key, ParseDigits(digits)))
  {
    ParseAfterPadding(digits, text, key);
  }

  /** Every report line gives back the count and the key it was made from, whatever the key holds. */
  lemma EmailerLineRoundTrip(g: Group, text: string)
    ensures ParseEmailerLine(EmailerLine(g, text), text) == Some(g)
  {
    var digits := Digits(g.count);
    var pad := Repeat(' ', |PadLeft(digits, 8, ' ')| - |digits|);
    var tail := Separator(text) + g.key;
    var line := EmailerLine(g, text);
    assert line == pad + (digits + tail);
    SkipPadding(pad, digits, tail);
    ParseEmailerLineOf(line, text, digits, g.key);
  }

  /** The line of each group, in order. */
  function Render(groups: seq<Group>, line: Group -> string): (r: seq<string>)
    ensures |r| == |groups|
  {
    if groups == [] then [] else [line(groups[0])] + Render(groups[1..], line)
  }

  lemma {:induction false} RenderAt(groups: seq<Group>, line: Group -> string, i: nat)
    requires i < |groups|
    ensures Render(groups, line)[i] == line(groups[i])
  {
    if i > 0 {
      RenderAt(groups[1..], line, i - 1);
      assert groups[1..][i - 1] == groups[i];
    } else if |groups| > 1 {
      RenderAt(groups[1..], line, 0);
    }
  }

  function EmailerLines(groups: seq<Group>, text: string): seq<string> {
    Render(groups, g => EmailerLine(g, text))
  }

  /** The lines `PrintTopEmailers` emits for a ranking: one per group among the first five. */
  function TopEmailerLines(topMailers: seq<Group>, text: string): seq<string> {
    EmailerLines(TopFive(topMailers), text)
  }

  /** At most five lines, fewer only when there are fewer groups, each reading back as the group at its position. */
  lemma TopEmailerLinesReadBack(topMailers: seq<Group>, text: string)
    ensures |TopEmailerLines(topMailers, text)| == Min(5, |topMailers|)
    ensures forall i :: 0 <= i < |TopEmailerLines(topMailers, text)| ==>
      ParseEmailerLine(TopEmailerLines(topMailers, text)[i], text) == Some(topMailers[i])
  {
    var top := TopFive(topMailers);
    forall i | 0 <= i < |top| ensures ParseEmailerLine(TopEmailerLines(topMailers, text)[i], text) == Some(topMailers[i]) {
      RenderAt(top, g => EmailerLine(g, text), i);
      EmailerLineRoundTrip(top[i], text);
    }
  }

  /**
    The `foreach` of `PrintTopEmailers`: formats each group with `line` and hands the
    result to `Out`, in order.
   */
  method LogEach(log: Logger, groups: seq<Group>, line: Group -> string)
    requires log.Valid()
    modifies log
    ensures log.Valid()
    ensures log.lines == old(log.lines) + Render(groups, line)
  {
    ghost var emitted := Render(groups, line);
    for i := 0 to |groups|
      invariant log.Valid()
      invariant log.lines == old(log.lines) + emitted[..i]
    {
      var text := line(groups[i]);
      RenderAt(groups, line, i);
      assert emitted[..i + 1] == emitted[..i] + [text];
      log.Out(text);
    }
    assert emitted[..|groups|] == emitted;
  }

  /** `PrintTopEmailers`: logs the line of each of the first five groups, in ranking order. */
  method PrintTopEmailers(log: Logger, topMailers: seq<Group>, text: string)
    requires log.Valid()
    modifies log
    ensures log.Valid()
    ensures log.lines == old(log.lines) + TopEmailerLines(topMailers, text)
    ensures log.logString == old(log.logString) + Unlines(TopEmailerLines(topMailers, text), log.newLine)
  {
    var top := TopFive(topMailers);
    LogEach(log, top, g => EmailerLine(g, text));
    UnlinesConcat(old(log.lines), TopEmailerLines(topMailers, text), log.newLine);
  }
}
