/**
  The parsed message record and the reply filter: which messages count as replies
  written by the configured address.
 */
module Mail {
  import opened Wrappers
  import opened Text

  /**
    One message of the mailbox. Identifiers and the subject may be absent (null in the
    parsed message); the sender and recipient lists are their rendered strings; the date
    is the UTC tick count (`UtcTicks`, 100 nanoseconds each), which is what subtracting
    two `DateTimeOffset` values compares, so two dates subtract to a duration in ticks.
   */
  datatype Message = Message(
    messageId: Option<string>,
    inReplyTo: Option<string>,
    from: string,
    to: string,
    subject: Option<string>,
    date: int)

  /** "fwd:" in any mix of upper and lower case starts at index `i` of `s`. */
  predicate ForwardMarkAt(s: string, i: int) {
    && 0 <= i && i + 4 <= |s|
    && (s[i] == 'f' || s[i] == 'F')
    && (s[i + 1] == 'w' || s[i + 1] == 'W')
    && (s[i + 2] == 'd' || s[i + 2] == 'D')
    && s[i + 3] == ':'
  }

  /** The subject is present, non-empty and its lower-cased form contains "fwd:". */
  function SubjectIndicatesForward(msg: Message): (b: bool)
    ensures b <==> msg.subject.Some? && exists i :: ForwardMarkAt(msg.subject.value, i)
  {
    if IsNullOrEmpty(msg.subject) then
      false
    else
      var s := msg.subject.value;
      var lower := ToLower(s);
      assert forall i :: OccursAt(lower, "fwd:", i) <==> ForwardMarkAt(s, i) by {
        forall i | 0 <= i && i + 4 <= |s|
          ensures OccursAt(lower, "fwd:", i) <==> ForwardMarkAt(s, i)
        {
          assert lower[i..i + 4] == [lower[i], lower[i + 1], lower[i + 2], lower[i + 3]];
        }
      }
      Contains(lower, "fwd:")
  }

  /**
    A reply written by `email`: it names the message it answers, the rendered sender
    contains `email`, and it is not a forward.
   */
  function MailReplyFromMe(email: string, msg: Message): (b: bool)
    ensures b <==>
      && msg.inReplyTo.Some? && msg.inReplyTo.value != []
      && (exists i :: OccursAt(msg.from, email, i))
      && !(msg.subject.Some? && exists i :: ForwardMarkAt(msg.subject.value, i))
  {
    !IsNullOrEmpty(msg.inReplyTo) && Contains(msg.from, email) && !SubjectIndicatesForward(msg)
  }

  /** The replies written by `email`, in mailbox order. */
  function Replies(email: string, msgs: seq<Message>): (r: seq<Message>)
    ensures forall m :: multiset(r)[m] == if MailReplyFromMe(email, m) then multiset(msgs)[m] else 0
    ensures |r| <= |msgs|
  {
    if msgs == [] then
      []
    else
      var last := msgs[|msgs| - 1];
      assert msgs == msgs[..|msgs| - 1] + [last];
      var r := Replies(email, msgs[..|msgs| - 1]);
      if MailReplyFromMe(email, last) then r + [last] else r
  }
}
