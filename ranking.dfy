/**
  Correspondent ranking: messages grouped by their rendered To (or From) string, the
  groups ordered by how many messages they hold, most first, and the first five taken.
 */
module Ranking {
  import opened Mail

  /** Which rendered address list a grouping is keyed on. */
  datatype Direction = SentTo | ReceivedFrom

  /** The key selector: the rendered To string for sent mail, the rendered From string for received mail. */
  function KeyOf(msg: Message, dir: Direction): (k: string)
    ensures dir == SentTo ==> k == msg.to
    ensures dir == ReceivedFrom ==> k == msg.from
  {
    match dir
    case SentTo => msg.to
    case ReceivedFrom => msg.from
  }

  /** One group of the lookup: its key and the number of messages under it. */
  datatype Group = Group(key: string, count: nat)

  /** The number of messages whose key is `k`. */
  function CountKey(msgs: seq<Message>, dir: Direction, k: string): nat {
    if msgs == [] then 0
    else CountKey(msgs[..|msgs| - 1], dir, k) + (if KeyOf(msgs[|msgs| - 1], dir) == k then 1 else 0)
  }

  function SumCounts(groups: seq<Group>): nat {
    if groups == [] then 0 else groups[0].count + SumCounts(groups[1..])
  }

  predicate DistinctKeys(groups: seq<Group>) {
    forall i, j :: 0 <= i < j < |groups| ==> groups[i].key != groups[j].key
  }

  predicate HasKey(groups: seq<Group>, k: string) {
    exists i :: 0 <= i < |groups| && groups[i].key == k
  }

  lemma DistinctKeysTail(groups: seq<Group>)
    requires groups != [] && DistinctKeys(groups)
    ensures DistinctKeys(groups[1..])
  {
    forall i, j | 0 <= i < j < |groups| - 1 ensures groups[1..][i].key != groups[1..][j].key {
      assert groups[1..][i] == groups[i + 1] && groups[1..][j] == groups[j + 1];
    }
  }

  lemma DistinctKeysCons(g: Group, groups: seq<Group>)
    requires DistinctKeys(groups)
    requires forall i :: 0 <= i < |groups| ==> groups[i].key != g.key
    ensures DistinctKeys([g] + groups)
  {
    var r := [g] + groups;
    forall i, j | 0 <= i < j < |r| ensures r[i].key != r[j].key {
      assert r[j] == groups[j - 1];
      if i > 0 {
        assert r[i] == groups[i - 1];
      }
    }
  }

  /** The count of the first group keyed `k`, or zero when there is none. */
  function LookupCount(groups: seq<Group>, k: string): nat {
    if groups == [] then 0
    else if groups[0].key == k then groups[0].count
    else LookupCount(groups[1..], k)
  }

  lemma {:induction false} LookupCountOfMember(groups: seq<Group>, i: nat)
    requires DistinctKeys(groups) && i < |groups|
    ensures LookupCount(groups, groups[i].key) == groups[i].count
  {
    if i > 0 {
      assert groups[i] == groups[1..][i - 1];
      LookupCountOfMember(groups[1..], i - 1);
    }
  }

  lemma {:induction false} LookupCountOfAbsent(groups: seq<Group>, k: string)
    requires !HasKey(groups, k)
    ensures LookupCount(groups, k) == 0
  {
    if groups != [] {
      assert !HasKey(groups[1..], k) by {
        forall i | 0 <= i < |groups[1..]| ensures groups[1..][i].key != k {
          assert groups[1..][i] == groups[i + 1];
        }
      }
      LookupCountOfAbsent(groups[1..], k);
    }
  }

  /** A message with key `k` is counted, so a key no message has counts zero. */
  lemma {:induction false} CountKeyWitness(msgs: seq<Message>, dir: Direction, k: string)
    requires CountKey(msgs, dir, k) > 0
    ensures exists j :: 0 <= j < |msgs| && KeyOf(msgs[j], dir) == k
  {
    var init := msgs[..|msgs| - 1];
    if KeyOf(msgs[|msgs| - 1], dir) != k {
      CountKeyWitness(init, dir, k);
      var j :| 0 <= j < |init| && KeyOf(init[j], dir) == k;
      assert msgs[j] == init[j];
    }
  }

  /** Adding one message keyed `k` to a lookup: bump the group of `k`, or open a new one at the end. */
  function AddToLookup(groups: seq<Group>, k: string): (r: seq<Group>)
    ensures |groups| <= |r| <= |groups| + 1
  {
    if groups == [] then [Group(k, 1)]
    else if groups[0].key == k then [Group(k, groups[0].count + 1)] + groups[1..]
    else [groups[0]] + AddToLookup(groups[1..], k)
  }

  lemma {:induction false} AddToLookupHasKey(groups: seq<Group>, k: string)
    ensures HasKey(AddToLookup(groups, k), k)
  {
    var r := AddToLookup(groups, k);
    if groups == [] || groups[0].key == k {
      assert r[0].key == k;
    } else {
      AddToLookupHasKey(groups[1..], k);
      var i :| 0 <= i < |AddToLookup(groups[1..], k)| && AddToLookup(groups[1..], k)[i].key == k;
      assert r[i + 1].key == k;
    }
  }

  lemma {:induction false} AddToLookupKeepsKey(groups: seq<Group>, k: string, i: nat)
    requires i < |groups|
    ensures HasKey(AddToLookup(groups, k), groups[i].key)
  {
    var r := AddToLookup(groups, k);
    if i == 0 {
      assert r[0].key == groups[0].key;
    } else if groups[0].key == k {
      assert r[i] == groups[i];
    } else {
      assert groups[i] == groups[1..][i - 1];
      AddToLookupKeepsKey(groups[1..], k, i - 1);
      var rest := AddToLookup(groups[1..], k);
      var j :| 0 <= j < |rest| && rest[j].key == groups[i].key;
      assert r[j + 1] == rest[j];
    }
  }

  /** Each group after the addition is the bumped group of `k` or an untouched old group. */
  lemma {:induction false} AddToLookupAt(groups: seq<Group>, k: string, i: nat)
    requires DistinctKeys(groups)
    requires i < |AddToLookup(groups, k)|
    ensures var r := AddToLookup(groups, k);
      || (r[i].key == k && r[i].count == LookupCount(groups, k) + 1)
      || (r[i].key != k && r[i] in groups)
  {
    if groups != [] && i > 0 {
      if groups[0].key == k {
        assert AddToLookup(groups, k)[i] == groups[i];
      } else {
        DistinctKeysTail(groups);
        AddToLookupAt(groups[1..], k, i - 1);
        var rest := AddToLookup(groups[1..], k);
        assert AddToLookup(groups, k)[i] == rest[i - 1];
        if rest[i - 1] in groups[1..] {
          var j :| 0 <= j < |groups[1..]| && groups[1..][j] == rest[i - 1];
          assert groups[j + 1] == rest[i - 1];
        }
      }
    }
  }

  lemma {:induction false} AddToLookupDistinct(groups: seq<Group>, k: string)
    requires DistinctKeys(groups)
    ensures DistinctKeys(AddToLookup(groups, k))
  {
    if groups != [] {
      DistinctKeysTail(groups);
      assert forall i :: 0 <= i < |groups[1..]| ==> groups[1..][i].key != groups[0].key by {
        forall i | 0 <= i < |groups[1..]| ensures groups[1..][i].key != groups[0].key {
          assert groups[1..][i] == groups[i + 1];
        }
      }
      if groups[0].key != k {
        var rest := AddToLookup(groups[1..], k);
        AddToLookupDistinct(groups[1..], k);
        forall i | 0 <= i < |rest| ensures rest[i].key != groups[0].key {
          AddToLookupAt(groups[1..], k, i);
          if rest[i].key != k {
            var j :| 0 <= j < |groups[1..]| && groups[1..][j] == rest[i];
          }
        }
        DistinctKeysCons(groups[0], rest);
      } else {
        DistinctKeysCons(Group(k, groups[0].count + 1), groups[1..]);
      }
    }
  }

  lemma {:induction false} AddToLookupSum(groups: seq<Group>, k: string)
    ensures SumCounts(AddToLookup(groups, k)) == SumCounts(groups) + 1
  {
    var r := AddToLookup(groups, k);
    if groups == [] {
      assert r[1..] == [];
    } else if groups[0].key == k {
      assert r[1..] == groups[1..];
    } else {
      assert r[1..] == AddToLookup(groups[1..], k);
      AddToLookupSum(groups[1..], k);
    }
  }

  /** The position of the first message keyed `k`, or `|msgs|` when there is none. */
  function FirstIndex(msgs: seq<Message>, dir: Direction, k: string): (n: nat)
    ensures n <= |msgs|
    ensures n < |msgs| ==> KeyOf(msgs[n], dir) == k
    ensures forall j :: 0 <= j < n ==> KeyOf(msgs[j], dir) != k
  {
    if msgs == [] then 0
    else if KeyOf(msgs[0], dir) == k then 0
    else
      var n := FirstIndex(msgs[1..], dir, k);
      assert forall j :: 1 <= j < |msgs| ==> msgs[j] == msgs[1..][j - 1];
      1 + n
  }

  /** A key already seen before the last message is first seen at the same position. */
  lemma FirstIndexOfPrefix(msgs: seq<Message>, dir: Direction, k: string)
    requires msgs != [] && FirstIndex(msgs[..|msgs| - 1], dir, k) < |msgs| - 1
    ensures FirstIndex(msgs, dir, k) == FirstIndex(msgs[..|msgs| - 1], dir, k)
  {
    var init := msgs[..|msgs| - 1];
    var a, b := FirstIndex(init, dir, k), FirstIndex(msgs, dir, k);
    assert msgs[a] == init[a];
    assert b <= a;
    assert msgs[b] == init[b];
  }

  /** A key no earlier message has is first seen at the last message. */
  lemma FirstIndexOfNew(msgs: seq<Message>, dir: Direction)
    requires msgs != []
    requires forall j :: 0 <= j < |msgs| - 1 ==> KeyOf(msgs[j], dir) != KeyOf(msgs[|msgs| - 1], dir)
    ensures FirstIndex(msgs, dir, KeyOf(msgs[|msgs| - 1], dir)) == |msgs| - 1
  {
  }

  /** A key without a group in the lookup of some messages is the key of none of them. */
  lemma KeyWithoutGroup(msgs: seq<Message>, dir: Direction, k: string)
    requires !HasKey(ToLookup(msgs, dir), k)
    ensures forall m :: 0 <= m < |msgs| ==> KeyOf(msgs[m], dir) != k
  {
    forall m | 0 <= m < |msgs| ensures KeyOf(msgs[m], dir) != k {
      ToLookupCovers(msgs, dir, m);
    }
  }

  /**
    Adding a message keeps every group where it was: a known key is counted in place and
    a new key opens a group after all the others.
   */
  lemma {:induction false} AddToLookupKeys(groups: seq<Group>, k: string)
    ensures var r := AddToLookup(groups, k);
      && (forall i :: 0 <= i < |groups| ==> r[i].key == groups[i].key)
      && (|r| == |groups| + 1 ==> r[|groups|].key == k && !HasKey(groups, k))
  {
    if groups != [] && groups[0].key != k {
      var r := AddToLookup(groups, k);
      var rest := AddToLookup(groups[1..], k);
      AddToLookupKeys(groups[1..], k);
      assert r == [groups[0]] + rest;
      forall i | 0 <= i < |groups| ensures r[i].key == groups[i].key {
        if i > 0 {
          assert r[i] == rest[i - 1] && groups[i] == groups[1..][i - 1];
        }
      }
      if |r| == |groups| + 1 {
        assert r[|groups|] == rest[|groups[1..]|];
        forall i | 0 <= i < |groups| ensures groups[i].key != k {
          if i > 0 {
            assert groups[i] == groups[1..][i - 1];
          }
        }
      }
    }
  }

  /** `ToLookup` over the key of each message: one group per distinct key, in order of first appearance. */
  function ToLookup(msgs: seq<Message>, dir: Direction): (r: seq<Group>)
    ensures |r| <= |msgs|
  {
    if msgs == [] then []
    else AddToLookup(ToLookup(msgs[..|msgs| - 1], dir), KeyOf(msgs[|msgs| - 1], dir))
  }

  lemma {:induction false} ToLookupDistinct(msgs: seq<Message>, dir: Direction)
    ensures DistinctKeys(ToLookup(msgs, dir))
  {
    if msgs != [] {
      ToLookupDistinct(msgs[..|msgs| - 1], dir);
      AddToLookupDistinct(ToLookup(msgs[..|msgs| - 1], dir), KeyOf(msgs[|msgs| - 1], dir));
    }
  }

  lemma {:induction false} ToLookupCovers(msgs: seq<Message>, dir: Direction, j: nat)
    requires j < |msgs|
    ensures HasKey(ToLookup(msgs, dir), KeyOf(msgs[j], dir))
  {
    var init := msgs[..|msgs| - 1];
    var k := KeyOf(msgs[|msgs| - 1], dir);
    if j == |msgs| - 1 {
      AddToLookupHasKey(ToLookup(init, dir), k);
    } else {
      assert msgs[j] == init[j];
      ToLookupCovers(init, dir, j);
      var prev := ToLookup(init, dir);
      var i :| 0 <= i < |prev| && prev[i].key == KeyOf(init[j], dir);
      AddToLookupKeepsKey(prev, k, i);
    }
  }

  lemma {:induction false} ToLookupSum(msgs: seq<Message>, dir: Direction)
    ensures SumCounts(ToLookup(msgs, dir)) == |msgs|
  {
    if msgs != [] {
      ToLookupSum(msgs[..|msgs| - 1], dir);
      AddToLookupSum(ToLookup(msgs[..|msgs| - 1], dir), KeyOf(msgs[|msgs| - 1], dir));
    }
  }

  /** Each group of the lookup counts exactly the messages with its key, and at least one. */
  lemma {:induction false} ToLookupCounts(msgs: seq<Message>, dir: Direction, i: nat)
    requires i < |ToLookup(msgs, dir)|
    ensures var g := ToLookup(msgs, dir)[i];
      g.count == CountKey(msgs, dir, g.key) && g.count > 0
  {
    var init := msgs[..|msgs| - 1];
    var k := KeyOf(msgs[|msgs| - 1], dir);
    var prev := ToLookup(init, dir);
    var g := ToLookup(msgs, dir)[i];
    ToLookupDistinct(init, dir);
    AddToLookupAt(prev, k, i);
    if g.key == k {
      if HasKey(prev, k) {
        var i' :| 0 <= i' < |prev| && prev[i'].key == k;
        LookupCountOfMember(prev, i');
        ToLookupCounts(init, dir, i');
      } else {
        LookupCountOfAbsent(prev, k);
        if CountKey(init, dir, k) > 0 {
          CountKeyWitness(init, dir, k);
          var j :| 0 <= j < |init| && KeyOf(init[j], dir) == k;
          ToLookupCovers(init, dir, j);
          assert false;
        }
      }
    } else {
      var i' :| 0 <= i' < |prev| && prev[i'] == g;
      ToLookupCounts(init, dir, i');
    }
  }

  /** Every group's key is the key of some message, so it has a first position. */
  lemma {:induction false} ToLookupKeySeen(msgs: seq<Message>, dir: Direction, i: nat)
    requires i < |ToLookup(msgs, dir)|
    ensures FirstIndex(msgs, dir, ToLookup(msgs, dir)[i].key) < |msgs|
  {
    var init := msgs[..|msgs| - 1];
    var k := KeyOf(msgs[|msgs| - 1], dir);
    var prev := ToLookup(init, dir);
    var key := ToLookup(msgs, dir)[i].key;
    AddToLookupKeys(prev, k);
    if i < |prev| {
      ToLookupKeySeen(init, dir, i);
      FirstIndexOfPrefix(msgs, dir, key);
    }
  }

  /** A key with a group before the last message keeps the position where it was first seen. */
  lemma FirstSeenKept(msgs: seq<Message>, dir: Direction, i: nat)
    requires msgs != [] && i < |ToLookup(msgs[..|msgs| - 1], dir)|
    ensures var k := ToLookup(msgs[..|msgs| - 1], dir)[i].key;
      FirstIndex(msgs, dir, k) == FirstIndex(msgs[..|msgs| - 1], dir, k) < |msgs| - 1
  {
    var init := msgs[..|msgs| - 1];
    ToLookupKeySeen(init, dir, i);
    FirstIndexOfPrefix(msgs, dir, ToLookup(init, dir)[i].key);
  }

  /** The key of the last message, when no earlier message has it, is first seen last. */
  lemma FirstSeenNew(msgs: seq<Message>, dir: Direction)
    requires msgs != []
    requires !HasKey(ToLookup(msgs[..|msgs| - 1], dir), KeyOf(msgs[|msgs| - 1], dir))
    ensures FirstIndex(msgs, dir, KeyOf(msgs[|msgs| - 1], dir)) == |msgs| - 1
  {
    var init := msgs[..|msgs| - 1];
    KeyWithoutGroup(init, dir, KeyOf(msgs[|msgs| - 1], dir));
    assert forall m :: 0 <= m < |msgs| - 1 ==> msgs[m] == init[m];
    FirstIndexOfNew(msgs, dir);
  }

  /** The lookup lists its groups in the order their keys first appear among the messages. */
  lemma {:induction false} ToLookupFirstSeen(msgs: seq<Message>, dir: Direction, i: nat, j: nat)
    requires i < j < |ToLookup(msgs, dir)|
    ensures var r := ToLookup(msgs, dir);
      FirstIndex(msgs, dir, r[i].key) < FirstIndex(msgs, dir, r[j].key)
  {
    var last := msgs[|msgs| - 1];
    var init := msgs[..|msgs| - 1];
    var k := KeyOf(last, dir);
    var prev := ToLookup(init, dir);
    var r := ToLookup(msgs, dir);
    assert r == AddToLookup(prev, k);
    AddToLookupKeys(prev, k);
    var ki := prev[i].key;
    assert r[i].key == ki;
    FirstSeenKept(msgs, dir, i);
    if j < |prev| {
      var kj := prev[j].key;
      assert r[j].key == kj;
      ToLookupFirstSeen(init, dir, i, j);
      FirstSeenKept(msgs, dir, j);
      assert FirstIndex(init, dir, ki) < FirstIndex(init, dir, kj);
    } else {
      assert r[j].key == k;
      FirstSeenNew(msgs, dir);
      assert FirstIndex(msgs, dir, ki) < |msgs| - 1 == FirstIndex(msgs, dir, k);
    }
  }

  /** Counts never increase along the sequence. */
  predicate NonIncreasing(groups: seq<Group>) {
    forall i, j :: 0 <= i < j < |groups| ==> groups[i].count >= groups[j].count
  }

  lemma NonIncreasingCons(g: Group, groups: seq<Group>)
    requires NonIncreasing(groups)
    requires forall i :: 0 <= i < |groups| ==> groups[i].count <= g.count
    ensures NonIncreasing([g] + groups)
  {
    var r := [g] + groups;
    forall i, j | 0 <= i < j < |r| ensures r[i].count >= r[j].count {
      assert r[j] == groups[j - 1];
      if i > 0 {
        assert r[i] == groups[i - 1];
      }
    }
  }

  /** Places `g` before the first group of a ranking that has no more messages than it. */
  function InsertByCount(g: Group, sorted: seq<Group>): (r: seq<Group>)
    ensures multiset(r) == multiset(sorted) + multiset{g}
  {
    if sorted == [] || g.count >= sorted[0].count then
      [g] + sorted
    else
      assert sorted == [sorted[0]] + sorted[1..];
      [sorted[0]] + InsertByCount(g, sorted[1..])
  }

  /** An element of a sequence is one of its positions. */
  lemma IndexOfMember(s: seq<Group>, x: Group) returns (j: nat)
    requires x in multiset(s)
    ensures j < |s| && s[j] == x
  {
    j :| 0 <= j < |s| && s[j] == x;
  }

  /** Every group of an insertion is the inserted one or a position of the old sequence. */
  lemma InsertByCountAt(g: Group, sorted: seq<Group>, i: nat) returns (j: nat)
    requires i < |InsertByCount(g, sorted)|
    ensures var r := InsertByCount(g, sorted);
      r[i] == g || (j < |sorted| && sorted[j] == r[i])
  {
    var r := InsertByCount(g, sorted);
    assert r[i] in multiset(r);
    j := 0;
    if r[i] != g {
      j := IndexOfMember(sorted, r[i]);
    }
  }

  lemma {:induction false} InsertByCountSorted(g: Group, sorted: seq<Group>)
    requires NonIncreasing(sorted)
    ensures NonIncreasing(InsertByCount(g, sorted))
  {
    if sorted == [] || g.count >= sorted[0].count {
      NonIncreasingCons(g, sorted);
    } else {
      var rest := InsertByCount(g, sorted[1..]);
      InsertByCountSorted(g, sorted[1..]);
      forall i | 0 <= i < |rest| ensures rest[i].count <= sorted[0].count {
        var j := InsertByCountAt(g, sorted[1..], i);
        if rest[i] != g {
          assert sorted[1..][j] == sorted[j + 1];
        }
      }
      NonIncreasingCons(sorted[0], rest);
    }
  }

  lemma {:induction false} InsertByCountSum(g: Group, sorted: seq<Group>)
    ensures SumCounts(InsertByCount(g, sorted)) == SumCounts(sorted) + g.count
  {
    var r := InsertByCount(g, sorted);
    if sorted == [] || g.count >= sorted[0].count {
      assert r[1..] == sorted;
    } else {
      assert r[1..] == InsertByCount(g, sorted[1..]);
      InsertByCountSum(g, sorted[1..]);
    }
  }

  lemma {:induction false} InsertByCountDistinct(g: Group, sorted: seq<Group>)
    requires DistinctKeys(sorted)
    requires forall i :: 0 <= i < |sorted| ==> sorted[i].key != g.key
    ensures DistinctKeys(InsertByCount(g, sorted))
  {
    if sorted == [] || g.count >= sorted[0].count {
      DistinctKeysCons(g, sorted);
    } else {
      var rest := InsertByCount(g, sorted[1..]);
      DistinctKeysTail(sorted);
      assert forall i :: 0 <= i < |sorted[1..]| ==> sorted[1..][i].key != g.key by {
        forall i | 0 <= i < |sorted[1..]| ensures sorted[1..][i].key != g.key {
          assert sorted[1..][i] == sorted[i + 1];
        }
      }
      InsertByCountDistinct(g, sorted[1..]);
      forall i | 0 <= i < |rest| ensures rest[i].key != sorted[0].key {
        var j := InsertByCountAt(g, sorted[1..], i);
        if rest[i] != g {
          assert sorted[1..][j] == sorted[j + 1];
        }
      }
      DistinctKeysCons(sorted[0], rest);
    }
  }

  /** `OrderByDescending(count)`: the same groups, rearranged. */
  function OrderByCountDescending(groups: seq<Group>): (r: seq<Group>)
    ensures multiset(r) == multiset(groups)
  {
    if groups == [] then []
    else
      assert groups == [groups[0]] + groups[1..];
      InsertByCount(groups[0], OrderByCountDescending(groups[1..]))
  }

  lemma {:induction false} OrderByCountDescendingSorted(groups: seq<Group>)
    ensures NonIncreasing(OrderByCountDescending(groups))
  {
    if groups != [] {
      OrderByCountDescendingSorted(groups[1..]);
      InsertByCountSorted(groups[0], OrderByCountDescending(groups[1..]));
    }
  }

  lemma {:induction false} OrderByCountDescendingSum(groups: seq<Group>)
    ensures SumCounts(OrderByCountDescending(groups)) == SumCounts(groups)
  {
    if groups != [] {
      OrderByCountDescendingSum(groups[1..]);
      InsertByCountSum(groups[0], OrderByCountDescending(groups[1..]));
    }
  }

  lemma {:induction false} OrderByCountDescendingDistinct(groups: seq<Group>)
    requires DistinctKeys(groups)
    ensures DistinctKeys(OrderByCountDescending(groups))
  {
    if groups != [] {
      var rest := OrderByCountDescending(groups[1..]);
      DistinctKeysTail(groups);
      OrderByCountDescendingDistinct(groups[1..]);
      forall i | 0 <= i < |rest| ensures rest[i].key != groups[0].key {
        assert rest[i] in multiset(rest);
        var j := IndexOfMember(groups[1..], rest[i]);
        assert groups[1..][j] == groups[j + 1];
      }
      InsertByCountDistinct(groups[0], rest);
    }
  }

  /** Keys strictly increase in `pos` along the sequence. */
  predicate InOrder(groups: seq<Group>, pos: string -> int) {
    forall i, j :: 0 <= i < j < |groups| ==> pos(groups[i].key) < pos(groups[j].key)
  }

  /** Groups with equal counts have keys in increasing `pos`. */
  predicate TiesInOrder(groups: seq<Group>, pos: string -> int) {
    forall i, j :: 0 <= i < j < |groups| && groups[i].count == groups[j].count ==>
      pos(groups[i].key) < pos(groups[j].key)
  }

  lemma TiesInOrderTail(groups: seq<Group>, pos: string -> int)
    requires groups != [] && TiesInOrder(groups, pos)
    ensures TiesInOrder(groups[1..], pos)
  {
    var tail := groups[1..];
    forall i, j | 0 <= i < j < |tail| && tail[i].count == tail[j].count ensures pos(tail[i].key) < pos(tail[j].key) {
      assert tail[i] == groups[i + 1] && tail[j] == groups[j + 1];
    }
  }

  lemma TiesInOrderCons(g: Group, groups: seq<Group>, pos: string -> int)
    requires TiesInOrder(groups, pos)
    requires forall i :: 0 <= i < |groups| && groups[i].count == g.count ==> pos(g.key) < pos(groups[i].key)
    ensures TiesInOrder([g] + groups, pos)
  {
    var r := [g] + groups;
    forall i, j | 0 <= i < j < |r| && r[i].count == r[j].count ensures pos(r[i].key) < pos(r[j].key) {
      assert r[j] == groups[j - 1];
      if i > 0 {
        assert r[i] == groups[i - 1];
      }
    }
  }

  /** Inserting a group that comes before all others keeps ties in order: it goes ahead of its equals. */
  lemma {:induction false} InsertByCountStable(g: Group, sorted: seq<Group>, pos: string -> int)
    requires TiesInOrder(sorted, pos)
    requires forall i :: 0 <= i < |sorted| ==> pos(g.key) < pos(sorted[i].key)
    ensures TiesInOrder(InsertByCount(g, sorted), pos)
  {
    if sorted == [] || g.count >= sorted[0].count {
      TiesInOrderCons(g, sorted, pos);
    } else {
      var tail := sorted[1..];
      var rest := InsertByCount(g, tail);
      TiesInOrderTail(sorted, pos);
      assert forall i :: 0 <= i < |tail| ==> tail[i] == sorted[i + 1];
      InsertByCountStable(g, tail, pos);
      forall i | 0 <= i < |rest| && rest[i].count == sorted[0].count ensures pos(sorted[0].key) < pos(rest[i].key) {
        var m := InsertByCountAt(g, tail, i);
        if rest[i] != g {
          assert tail[m] == sorted[m + 1];
        }
      }
      TiesInOrderCons(sorted[0], rest, pos);
    }
  }

  /** `OrderByDescending` is stable: groups with equal counts keep their relative order. */
  lemma {:induction false} OrderByCountDescendingStable(groups: seq<Group>, pos: string -> int)
    requires InOrder(groups, pos)
    ensures TiesInOrder(OrderByCountDescending(groups), pos)
  {
    if groups != [] {
      var tail := groups[1..];
      var rest := OrderByCountDescending(tail);
      assert InOrder(tail, pos) by {
        forall i, j | 0 <= i < j < |tail| ensures pos(tail[i].key) < pos(tail[j].key) {
          assert tail[i] == groups[i + 1] && tail[j] == groups[j + 1];
        }
      }
      OrderByCountDescendingStable(tail, pos);
      forall i | 0 <= i < |rest| ensures pos(groups[0].key) < pos(rest[i].key) {
        assert rest[i] in multiset(rest);
        var m := IndexOfMember(tail, rest[i]);
        assert tail[m] == groups[m + 1];
      }
      InsertByCountStable(groups[0], rest, pos);
    }
  }

  /** The ranking of one direction: the lookup ordered by count, most frequent first. */
  function MostEmails(msgs: seq<Message>, dir: Direction): (r: seq<Group>)
    ensures multiset(r) == multiset(ToLookup(msgs, dir))
  {
    OrderByCountDescending(ToLookup(msgs, dir))
  }

  /**
    Every distinct key once, each with the number of messages under it, most frequent
    first; the counts add up to the number of messages.
   */
  lemma MostEmailsRanking(msgs: seq<Message>, dir: Direction)
    ensures var r := MostEmails(msgs, dir);
      && NonIncreasing(r)
      && DistinctKeys(r)
      && (forall i :: 0 <= i < |r| ==> r[i].count == CountKey(msgs, dir, r[i].key) && r[i].count > 0)
      && (forall j :: 0 <= j < |msgs| ==> HasKey(r, KeyOf(msgs[j], dir)))
      && SumCounts(r) == |msgs|
  {
    var lookup := ToLookup(msgs, dir);
    var r := MostEmails(msgs, dir);
    OrderByCountDescendingSorted(lookup);
    ToLookupDistinct(msgs, dir);
    OrderByCountDescendingDistinct(lookup);
    ToLookupSum(msgs, dir);
    OrderByCountDescendingSum(lookup);
    forall i | 0 <= i < |r| ensures r[i].count == CountKey(msgs, dir, r[i].key) && r[i].count > 0 {
      assert r[i] in multiset(r);
      var j := IndexOfMember(lookup, r[i]);
      ToLookupCounts(msgs, dir, j);
    }
    forall j | 0 <= j < |msgs| ensures HasKey(r, KeyOf(msgs[j], dir)) {
      ToLookupCovers(msgs, dir, j);
      var i :| 0 <= i < |lookup| && lookup[i].key == KeyOf(msgs[j], dir);
      assert lookup[i] in multiset(lookup);
      var k := IndexOfMember(r, lookup[i]);
    }
  }

  /**
    Groups with the same number of messages are ranked in the order their keys first
    appear in the mailbox.
   */
  lemma MostEmailsTiesFirstSeen(msgs: seq<Message>, dir: Direction)
    ensures var r := MostEmails(msgs, dir);
      forall i, j :: 0 <= i < j < |r| && r[i].count == r[j].count ==>
        FirstIndex(msgs, dir, r[i].key) < FirstIndex(msgs, dir, r[j].key)
  {
    var lookup := ToLookup(msgs, dir);
    var pos := k => FirstIndex(msgs, dir, k);
    forall i, j | 0 <= i < j < |lookup| ensures pos(lookup[i].key) < pos(lookup[j].key) {
      ToLookupFirstSeen(msgs, dir, i, j);
    }
    OrderByCountDescendingStable(lookup, pos);
  }

  function Min(a: nat, b: nat): nat {
    if a < b then a else b
  }

  /**
    `Take(5)`: at most five groups, fewer only when there are fewer; on a ranking, no
    group left out has more messages than one taken.
   */
  function TopFive(ranked: seq<Group>): (r: seq<Group>)
    ensures |r| == Min(5, |ranked|)
    ensures forall i :: 0 <= i < |r| ==> r[i] == ranked[i]
    ensures NonIncreasing(ranked) ==>
      forall i, j :: 0 <= i < |r| <= j < |ranked| ==> ranked[j].count <= r[i].count
  {
    ranked[..Min(5, |ranked|)]
  }
}
