# MailStatistics in Dafny

MailStatistics reads a mailbox and writes a short report about one address: how many
messages are replies sent from it, how long those replies took (fastest, average,
longest), and the five addresses most often written to and most often received from.
Each report line is echoed to the console and collected in a log buffer.

This project models that core on already-parsed messages:

- `Mail`: a message as the fields the program reads (Message-Id, In-Reply-To,
  the rendered From and To strings, Subject, date in 100 ns ticks), the forward test
  on the subject and the "reply from me" filter.
- `Latency`: the latency of a reply, found by matching its In-Reply-To value against
  every Message-Id; the fastest, longest and total of a list of latencies.
- `Ranking`: grouping messages by their rendered To or From string (`ToLookup`),
  ordering the groups by count, most first (`OrderByDescending`), and `Take(5)`.
- `Report`: the `{0,8} emails {2} {1}` line of a group and `PrintTopEmailers`, which
  logs one line per group among the first five.
- `TimeFormat`: a duration printed with the custom format `dd\.hh\:mm\:ss`, following
  the .NET custom TimeSpan formatter (truncating division by a day, no sign printed).
- `Log`: the `Logger` class, whose `Out` appends a line and the platform's line
  terminator to its buffer.
- `Text`: the string operations these need (`string.IsNullOrEmpty`, ASCII `ToLower`,
  `Contains`, decimal digits, left padding).

Nullable strings are `Option<string>`. A date is the UTC tick count of the message's
`DateTimeOffset` (`UtcTicks`, 100 ns each), since subtracting two `DateTimeOffset` values
compares UTC instants; a duration is a signed tick count, as `TimeSpan` holds it. C#'s truncating `/` and `%` are
written out in `TimeFormat.TruncDiv` and `TimeFormat.TruncRem`.

The messages are read in mailbox order. `ToLookup`, `Where` and `First` run sequentially
over them, so the lookup lists its groups in the order their keys are first seen, and
`OrderByDescending` is a stable sort, so groups with equal counts keep that first-seen order.
The model proves both. For the same reason, when several messages carry the identifier a
reply answers, the latency is measured from the first of them in mailbox order. Only the
latency `Select` (Program.cs:56) runs as a parallel query.

## Model

| member | source | states |
|---|---|---|
| Text.IsNullOrEmpty | Program.cs:134 | `string.IsNullOrEmpty` is false exactly when the string is present and has at least one character |
| Text.Contains | Program.cs:144 | `s.Contains(sub)` holds exactly when `sub` occurs at some position of `s` |
| Text.ToLower | Program.cs:144 | the lowered subject has the same length and each character lowered on its own |
| Text.Digits | Program.cs:89 | the decimal digits of a count: non-empty, no leading zero, and reading back as the count |
| Text.PadLeft | Program.cs:89 | `{0,8}`: the text right-aligned, padded with blanks on the left to at least eight columns, and never truncated |
| Text.FormatDigits | Program.cs:99 | a `dd`/`hh`/`mm`/`ss` field: exactly max(width, number of digits) digits, with no extra leading zero beyond the width, reading back as the number |
| Text.ParseDigitsLeadingZeros | Program.cs:99 | zero-filling a field on the left does not change the number it reads as |
| Text.TwoDigitsOfSmall | Program.cs:99 | `hh`, `mm` and `ss` of a value below 100 take exactly two characters |
| Mail.SubjectIndicatesForward | Program.cs:142-145 | true exactly when there is a subject containing `fwd:` in any mix of upper and lower case |
| Mail.MailReplyFromMe | Program.cs:132-135 | true exactly when In-Reply-To is non-empty, the rendered From contains the address, and the subject does not mark a forward |
| Mail.Replies | Program.cs:50 | `Where(MailReplyFromMe)`: each message kept as often as it occurs exactly when it is a reply from the address, and no other |
| Latency.IsOriginalOf | Program.cs:109 | a message is an original of the reply when it carries a Message-Id and the reply's In-Reply-To equals it, and only when that identifier is non-empty |
| Latency.FindOriginal | Program.cs:109 | no position found exactly when no message has a non-empty Message-Id equal to the reply's In-Reply-To; a position found is such a message |
| Latency.TimeForReply | Program.cs:107-113 | zero when no message is the original; otherwise the reply's date minus the date of the first original in mailbox order, signed |
| Latency.ReplyTimes | Program.cs:56 | one latency per reply, each zero when the reply has no original and otherwise measured from its first original in mailbox order |
| Latency.Fastest | Program.cs:60 | `Min()`: a latency of the list no greater than any other |
| Latency.Longest | Program.cs:62 | `Max()`: a latency of the list no smaller than any other |
| Latency.TotalReplyTime | Program.cs:61 | the sum of the latencies behind the average, never negative when no latency is |
| Latency.TotalReplyTimeConcat | Program.cs:61 | the sum over two batches is the sum of the two sums |
| Latency.TotalReplyTimePermutation | Program.cs:56-61 | the sum does not depend on the order in which the parallel query delivers the latencies |
| Latency.TotalWithinBounds | Program.cs:61 | the total of latencies that all lie between two bounds lies between the bounds times the count |
| Latency.AverageBetweenFastestAndLongest | Program.cs:61 | the total lies between fastest times count and longest times count, so the mean lies between fastest and longest |
| Ranking.KeyOf | Program.cs:67-68 | the key selectors: the rendered To string for the sent-to grouping, the rendered From string for the received-from grouping |
| Ranking.ToLookup | Program.cs:67-68 | the lookup has no more groups than there are messages |
| Ranking.ToLookupDistinct | Program.cs:67-68 | each key appears in one group only |
| Ranking.ToLookupCovers | Program.cs:67-68 | every message's rendered address is the key of a group |
| Ranking.ToLookupCounts | Program.cs:67-68 | each group counts exactly the messages with its key, and at least one |
| Ranking.ToLookupSum | Program.cs:67-68 | the group counts add up to the number of messages |
| Ranking.FirstIndex | Program.cs:67-68 | the position where a key is first seen: a message with that key, and no earlier one has it |
| Ranking.AddToLookupKeys | Program.cs:67-68 | adding a message keeps every group at its position; a key not yet seen opens a new group at the end |
| Ranking.ToLookupFirstSeen | Program.cs:67-68 | the lookup lists its groups in the order their keys are first seen in the mailbox |
| Ranking.AddToLookupAt | Program.cs:67-68 | adding one message raises the count of its own group by one and leaves every other group unchanged |
| Ranking.OrderByCountDescending | Program.cs:67-68 | `OrderByDescending` returns the same groups, rearranged |
| Ranking.OrderByCountDescendingSorted | Program.cs:67-68 | the ordered groups have non-increasing counts |
| Ranking.InsertByCountStable | Program.cs:67-68 | a group that comes before all the others in the lookup is inserted ahead of every group of equal count, so equal counts stay in lookup order |
| Ranking.OrderByCountDescendingStable | Program.cs:67-68 | `OrderByDescending` is stable: groups with equal counts keep the order they had in the lookup |
| Ranking.MostEmailsTiesFirstSeen | Program.cs:67-68 | in the ranking, of two addresses with the same count the one first seen earlier in the mailbox comes first |
| Ranking.MostEmails | Program.cs:67-68 | the ranking is a rearrangement of the lookup |
| Ranking.MostEmailsRanking | Program.cs:67-68 | the ranking is ordered by count, each key occurs once, every message's key occurs, each count is the number of messages with that key, and the counts add up to the number of messages |
| Ranking.TopFive | Program.cs:88 | `Take(5)`: the first min(5, n) groups in order; on a ranking, no group left out has more messages than a group taken |
| Report.EmailerLine | Program.cs:89 | `{0,8} emails {2} {1}`: the count in exactly max(8, digits) columns, blanks then the count's shortest decimal digits, then ` emails `, the text, a blank and the key, which end the line |
| Report.EmailerLineRoundTrip | Program.cs:89 | every report line reads back as the count and the key it was made from, whatever the key holds |
| Report.TopEmailerLinesReadBack | Program.cs:86-90 | the section has min(5, groups) lines, and line i reads back as group i of the ranking |
| Report.RenderAt | Program.cs:88-89 | the lines come one per group, in ranking order |
| Report.LogEach | Program.cs:88-89 | the `foreach`: the log gains the line of each group, in order, and nothing else |
| Report.PrintTopEmailers | Program.cs:86-90 | the log gains exactly the lines of the first five groups, each followed by the line terminator |
| TimeFormat.ClockOf | Program.cs:97-100 | hours below 24, minutes and seconds below 60, recombining to the whole seconds |
| TimeFormat.Components | Program.cs:97-100 | the fields the formatter computes are the clock fields of the whole seconds of the absolute duration |
| TimeFormat.TimePrinter | Program.cs:97-100 | the text has at least eleven characters, two for the days and nine for `.hh:mm:ss`, and a day field longer than two digits has no leading zero |
| TimeFormat.TimePrinterRoundTrip | Program.cs:97-100 | the text reads back as days, hours, minutes and seconds of the absolute duration, with fractions of a second dropped |
| TimeFormat.TimePrinterIgnoresSign | Program.cs:97-100 | a negative duration prints as its absolute value |
| TimeFormat.TimePrinterSameText | Program.cs:97-100 | two durations print the same text exactly when their absolute values have the same whole seconds |
| TimeFormat.TwoHours | Program.cs:97-100 | two hours print as `00.02:00:00` |
| Log.UnlinesSnoc | Program.cs:168 | appending a line and its terminator extends the text of the earlier lines |
| Log.UnlinesConcat | Program.cs:168 | the text of two batches of lines is the first batch's text followed by the second's |
| Log.Logger.constructor | Program.cs:164 | a new logger holds an empty buffer |
| Log.Logger.Out | Program.cs:165-169 | the buffer becomes the old buffer, the line and the terminator; `writeToFile` changes nothing; the buffer stays the lines logged so far, each followed by the terminator |

## Left out

- Reading the mailbox (`GetMessagesFromMboxFile`, Program.cs:152-157) and MIME parsing: the model starts from a sequence of parsed messages.
- Rendering an address list to a string (`From.ToString()`, `To.ToString()`): the rendered From and To are given as strings.
- Stripping angle brackets from Message-Id and In-Reply-To is done by the parser: the model compares the values as given.
- `ToLower` is culture-sensitive in .NET: the model lowers ASCII letters only.
- `UpdateProgress` (Program.cs:119-125) and the progress counter: console output and a shared counter updated from parallel threads.
- The order in which the parallel query produces latencies is left open. `ReplyTimes` lists the latencies in reply order, but `AsParallel().Select` (Program.cs:56) does not keep that order; only `Min`, `Max` and the average read them, and `TotalReplyTimePermutation` shows the total is the same in any order.
- Latency.AverageBetweenFastestAndLongest: the average is a double computed from milliseconds (Program.cs:61). The model proves only that the total lies between fastest times count and longest times count. It does not model the rounding of the double.
- `Main`'s configuration check, the status strings, the `Stopwatch` and the execution-time line, `Console.ReadKey`: console and clock interaction.
- `Logger.WriteFile` (Program.cs:171-174) writes the buffer to a file; the console echo in `Out` is recorded only as the ghost list of lines.
- `Environment.NewLine` is a parameter of the logger's constructor, since it depends on the platform.
- Report.PrintTopEmailers: the line is formatted by `String.Format` on a 32-bit count. The model's counts are unbounded naturals.
