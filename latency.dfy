/**
  Reply latency: for a reply, the time since the message it answers, found by matching
  its In-Reply-To identifier against every message's Message-Id; and the fastest,
  longest and total of a list of latencies.
 */
module Latency {
  import opened Wrappers
  import opened Text
  import opened Mail

  /** `msg` carries a non-empty identifier equal to the reply's In-Reply-To value. */
  function IsOriginalOf(msg: Message, reply: Message): (b: bool)
    ensures b ==> msg.messageId.Some? && reply.inReplyTo == msg.messageId && |reply.inReplyTo.value| > 0
    ensures msg.messageId.Some? && |msg.messageId.value| > 0 && reply.inReplyTo == msg.messageId ==> b
  {
    !IsNullOrEmpty(msg.messageId) && reply.inReplyTo == msg.messageId
  }

  predicate HasOriginal(all: seq<Message>, reply: Message) {
    exists j :: 0 <= j < |all| && IsOriginalOf(all[j], reply)
  }

  /** The position of the first original of `reply` at or after `from`, if there is one. */
  function FindOriginal(all: seq<Message>, reply: Message, from: nat := 0): (r: Option<nat>)
    requires from <= |all|
    ensures r.None? <==> forall j :: from <= j < |all| ==> !IsOriginalOf(all[j], reply)
    ensures r.Some? ==> from <= r.value < |all| && IsOriginalOf(all[r.value], reply)
    ensures r.Some? ==> forall j :: from <= j < r.value ==> !IsOriginalOf(all[j], reply)
    decreases |all| - from
  {
    if from == |all| then None
    else if IsOriginalOf(all[from], reply) then Some(from)
    else FindOriginal(all, reply, from + 1)
  }

  /** `all[j]` is an original of `reply` and no earlier message is. */
  predicate FirstOriginalAt(all: seq<Message>, reply: Message, j: int) {
    0 <= j < |all| && IsOriginalOf(all[j], reply) && forall k :: 0 <= k < j ==> !IsOriginalOf(all[k], reply)
  }

  /**
    The reply's date minus the date of the first message, in mailbox order, that it
    answers, in ticks; zero when no message in `all` is its original. The difference is
    signed and never clamped.
   */
  function TimeForReply(all: seq<Message>, reply: Message): (d: int)
    ensures !HasOriginal(all, reply) ==> d == 0
    ensures HasOriginal(all, reply) ==>
      exists j :: FirstOriginalAt(all, reply, j) && d == reply.date - all[j].date
  {
    match FindOriginal(all, reply)
    case None => 0
    case Some(j) => reply.date - all[j].date
  }

  /** When only one message answers to the identifier, the latency is determined by it. */
  lemma TimeForReplyUniqueOriginal(all: seq<Message>, reply: Message, k: nat)
    requires k < |all| && IsOriginalOf(all[k], reply)
    requires forall j :: 0 <= j < |all| && IsOriginalOf(all[j], reply) ==> j == k
    ensures TimeForReply(all, reply) == reply.date - all[k].date
  {
  }

  /** The latency of every reply, position by position. */
  function ReplyTimes(all: seq<Message>, replies: seq<Message>): (r: seq<int>)
    ensures |r| == |replies|
    ensures forall i :: 0 <= i < |replies| && !HasOriginal(all, replies[i]) ==> r[i] == 0
    ensures forall i :: 0 <= i < |replies| && HasOriginal(all, replies[i]) ==>
      exists j :: FirstOriginalAt(all, replies[i], j) && r[i] == replies[i].date - all[j].date
  {
    var r := seq(|replies|, i requires 0 <= i < |replies| => TimeForReply(all, replies[i]));
    assert forall i :: 0 <= i < |replies| ==> r[i] == TimeForReply(all, replies[i]);
    r
  }

  /** `Min()` over a non-empty list of latencies. */
  function Fastest(times: seq<int>): (r: int)
    requires |times| > 0
    ensures r in times
    ensures forall i :: 0 <= i < |times| ==> r <= times[i]
  {
    if |times| == 1 then times[0]
    else
      var m := Fastest(times[1..]);
      assert forall i :: 1 <= i < |times| ==> times[i] == times[1..][i - 1];
      if times[0] <= m then times[0] else m
  }

  /** `Max()` over a non-empty list of latencies. */
  function Longest(times: seq<int>): (r: int)
    requires |times| > 0
    ensures r in times
    ensures forall i :: 0 <= i < |times| ==> times[i] <= r
  {
    if |times| == 1 then times[0]
    else
      var m := Longest(times[1..]);
      assert forall i :: 1 <= i < |times| ==> times[i] == times[1..][i - 1];
      if m <= times[0] then times[0] else m
  }

  /** The sum of the latencies; no latency is negative when none of them is. */
  function TotalReplyTime(times: seq<int>): (t: int)
    ensures (forall i :: 0 <= i < |times| ==> 0 <= times[i]) ==> 0 <= t
  {
    if times == [] then 0
    else
      assert forall i :: 0 <= i < |times| - 1 ==> times[1..][i] == times[i + 1];
      times[0] + TotalReplyTime(times[1..])
  }

  lemma {:induction false} TotalReplyTimeConcat(a: seq<int>, b: seq<int>)
    ensures TotalReplyTime(a + b) == TotalReplyTime(a) + TotalReplyTime(b)
  {
    if a == [] {
      assert a + b == b;
    } else {
      assert (a + b)[1..] == a[1..] + b;
      TotalReplyTimeConcat(a[1..], b);
    }
  }

  /**
    The total does not depend on the order of the latencies, which a parallel query
    does not fix.
   */
  lemma {:induction false} TotalReplyTimePermutation(a: seq<int>, b: seq<int>)
    requires multiset(a) == multiset(b)
    ensures TotalReplyTime(a) == TotalReplyTime(b)
    decreases |a|
  {
    if a != [] {
      assert a[0] in multiset(b);
      var j :| 0 <= j < |b| && b[j] == a[0];
      var rest := b[..j] + b[j + 1..];
      assert b == b[..j] + ([b[j]] + b[j + 1..]);
      assert a == [a[0]] + a[1..];
      assert multiset(b) == multiset(b[..j]) + multiset([b[j]] + b[j + 1..]);
      assert multiset([b[j]] + b[j + 1..]) == multiset{b[j]} + multiset(b[j + 1..]);
      assert multiset(rest) == multiset(b[..j]) + multiset(b[j + 1..]);
      assert multiset(a) == multiset{a[0]} + multiset(a[1..]);
      assert multiset(a[1..]) == multiset(a) - multiset{a[0]};
      assert multiset(rest) == multiset(b) - multiset{b[j]};
      TotalReplyTimePermutation(a[1..], rest);
      TotalReplyTimeConcat(b[..j], [b[j]] + b[j + 1..]);
      TotalReplyTimeConcat(b[..j], b[j + 1..]);
      assert ([b[j]] + b[j + 1..])[1..] == b[j + 1..];
    } else {
      assert |b| == |multiset(b)| == 0;
    }
  }

  lemma {:induction false} TotalWithinBounds(times: seq<int>, lo: int, hi: int)
    requires forall i :: 0 <= i < |times| ==> lo <= times[i] <= hi
    ensures lo * |times| <= TotalReplyTime(times) <= hi * |times|
  {
    if times != [] {
      assert forall i :: 0 <= i < |times| - 1 ==> times[1..][i] == times[i + 1];
      var n := |times[1..]|;
      TotalWithinBounds(times[1..], lo, hi);
      assert lo * (n + 1) == lo * n + lo;
      assert hi * (n + 1) == hi * n + hi;
    }
  }

  /** The mean latency (total over count) lies between the fastest and the longest. */
  lemma AverageBetweenFastestAndLongest(times: seq<int>)
    requires |times| > 0
    ensures Fastest(times) * |times| <= TotalReplyTime(times) <= Longest(times) * |times|
  {
    TotalWithinBounds(times, Fastest(times), Longest(times));
  }
}
