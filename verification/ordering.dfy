/**
  The order in which the traversal visits a node's children: metadata keys
  (prefix "__") are dropped, then `Array.prototype.sort` with the comparator
  `priority(b) - priority(a)` moves priority keys to the front. That sort is
  stable (ECMA-262 10th edition, section 22.1.3.27), so the result is a
  stable partition.
 */
module Ordering {
  import opened Strings

  /** One `[key, value]` pair of `Object.entries`. */
  datatype Entry<V> = Entry(key: string, value: V)

  /** Keys starting with "__" name metadata, not children. */
  predicate IsMetadataKey(key: string)
  {
    IsPrefix("__", key)
  }

  /** The entries that name children, in their original order. */
  function Visible<V>(entries: seq<Entry<V>>): (r: seq<Entry<V>>)
    ensures |r| <= |entries|
    ensures forall k :: 0 <= k < |r| ==> r[k] in entries && !IsMetadataKey(r[k].key)
  {
    if |entries| == 0 then []
    else
      var rest := Visible(entries[1..]);
      assert forall k :: 1 <= k < |entries| ==> entries[k] == entries[1..][k - 1];
      (if IsMetadataKey(entries[0].key) then [] else [entries[0]]) + rest
  }

  /** Every entry whose key is not metadata is kept. */
  lemma {:induction false} VisibleKeepsChildren<V>(entries: seq<Entry<V>>, k: nat)
    requires k < |entries| && !IsMetadataKey(entries[k].key)
    ensures entries[k] in Visible(entries)
  {
    if k > 0 {
      assert entries[k] == entries[1..][k - 1];
      VisibleKeepsChildren(entries[1..], k - 1);
    }
  }

  /** Filtering a sequence with a given first entry. */
  lemma VisibleCons<V>(e: Entry<V>, s: seq<Entry<V>>)
    ensures Visible([e] + s) == (if IsMetadataKey(e.key) then [] else [e]) + Visible(s)
  {
    assert ([e] + s)[1..] == s;
  }

  /** Filtering distributes over concatenation, so the kept entries keep their relative order. */
  lemma {:induction false} VisibleAppend<V>(a: seq<Entry<V>>, b: seq<Entry<V>>)
    ensures Visible(a + b) == Visible(a) + Visible(b)
  {
    if |a| == 0 {
      assert a + b == b;
    } else {
      var e, tail := a[0], a[1..];
      var head := if IsMetadataKey(e.key) then [] else [e];
      calc {
        Visible(a + b);
        { assert a + b == [e] + (tail + b); }
        Visible([e] + (tail + b));
        { VisibleCons(e, tail + b); }
        head + Visible(tail + b);
        { VisibleAppend(tail, b); }
        head + (Visible(tail) + Visible(b));
        (head + Visible(tail)) + Visible(b);
        { assert a == [e] + tail; VisibleCons(e, tail); }
        Visible(a) + Visible(b);
      }
    }
  }

  /** The comparator's flag: 1 for a key in the category's priority list, 0 otherwise. */
  predicate IsPriority<V>(keys: seq<string>, e: Entry<V>)
  {
    e.key in keys
  }

  /** The entries whose priority flag is `flag`, in their original order. */
  function Group<V>(keys: seq<string>, flag: bool, s: seq<Entry<V>>): (r: seq<Entry<V>>)
    ensures |r| <= |s|
    ensures forall k :: 0 <= k < |r| ==> r[k] in s && IsPriority(keys, r[k]) == flag
  {
    if |s| == 0 then []
    else
      var init, last := s[..|s| - 1], s[|s| - 1];
      assert s == init + [last];
      if IsPriority(keys, last) == flag then Group(keys, flag, init) + [last]
      else Group(keys, flag, init)
  }

  /** The stable partition: every priority entry, then every other one. */
  function Partition<V>(keys: seq<string>, s: seq<Entry<V>>): seq<Entry<V>>
  {
    Group(keys, true, s) + Group(keys, false, s)
  }

  /**
    One insertion step of a stable sort under the comparator: `x` moves in
    front of an element only when that element compares strictly greater,
    i.e. `x` has priority and the element has not.
   */
  function Insert<V>(keys: seq<string>, sorted: seq<Entry<V>>, x: Entry<V>): seq<Entry<V>>
  {
    if |sorted| == 0 then [x]
    else
      var init, last := sorted[..|sorted| - 1], sorted[|sorted| - 1];
      if IsPriority(keys, x) && !IsPriority(keys, last) then Insert(keys, init, x) + [last]
      else sorted + [x]
  }

  /** A stable sort of `s` under the priority comparator. */
  function SortByPriority<V>(keys: seq<string>, s: seq<Entry<V>>): seq<Entry<V>>
  {
    if |s| == 0 then []
    else Insert(keys, SortByPriority(keys, s[..|s| - 1]), s[|s| - 1])
  }

  /** Insertion adds exactly one occurrence of `x`. */
  lemma {:induction false} InsertPermutes<V>(keys: seq<string>, sorted: seq<Entry<V>>, x: Entry<V>)
    ensures multiset(Insert(keys, sorted, x)) == multiset(sorted) + multiset{x}
  {
    if |sorted| > 0 {
      var init, last := sorted[..|sorted| - 1], sorted[|sorted| - 1];
      assert sorted == init + [last];
      InsertPermutes(keys, init, x);
    }
  }

  /** The sort is a permutation of its input. */
  lemma {:induction false} SortPermutes<V>(keys: seq<string>, s: seq<Entry<V>>)
    ensures multiset(SortByPriority(keys, s)) == multiset(s)
  {
    if |s| > 0 {
      var init, last := s[..|s| - 1], s[|s| - 1];
      assert s == init + [last];
      SortPermutes(keys, init);
      InsertPermutes(keys, SortByPriority(keys, init), last);
    }
  }

  /** Inserting an entry without priority appends it. */
  lemma InsertNonPriority<V>(keys: seq<string>, sorted: seq<Entry<V>>, x: Entry<V>)
    requires !IsPriority(keys, x)
    ensures Insert(keys, sorted, x) == sorted + [x]
  {
  }

  /** Inserting a priority entry behind a priority entry appends it. */
  lemma InsertBehindPriority<V>(keys: seq<string>, sorted: seq<Entry<V>>, x: Entry<V>)
    requires |sorted| == 0 || IsPriority(keys, sorted[|sorted| - 1])
    ensures Insert(keys, sorted, x) == sorted + [x]
  {
  }

  /** A priority entry passes over a trailing entry without priority. */
  lemma InsertPassesOver<V>(keys: seq<string>, init: seq<Entry<V>>, last: Entry<V>, x: Entry<V>)
    requires IsPriority(keys, x) && !IsPriority(keys, last)
    ensures Insert(keys, init + [last], x) == Insert(keys, init, x) + [last]
  {
    var sorted := init + [last];
    assert sorted[..|sorted| - 1] == init;
  }

  /** A priority entry inserted into a partitioned sequence lands at the end of the priority group. */
  lemma {:induction false} InsertIntoPartition<V>(keys: seq<string>, a: seq<Entry<V>>, b: seq<Entry<V>>, x: Entry<V>)
    requires IsPriority(keys, x)
    requires |a| == 0 || IsPriority(keys, a[|a| - 1])
    requires forall k :: 0 <= k < |b| ==> !IsPriority(keys, b[k])
    ensures Insert(keys, a + b, x) == a + [x] + b
    decreases |b|
  {
    if |b| == 0 {
      assert a + b == a;
      InsertBehindPriority(keys, a, x);
    } else {
      var init, last := b[..|b| - 1], b[|b| - 1];
      assert a + b == (a + init) + [last];
      assert !IsPriority(keys, last);
      InsertPassesOver(keys, a + init, last, x);
      assert forall k :: 0 <= k < |init| ==> init[k] == b[k];
      InsertIntoPartition(keys, a, init, x);
      assert a + [x] + init + [last] == a + [x] + b;
    }
  }

  /** The insertion sort under the comparator is exactly the stable partition. */
  lemma {:induction false} SortIsPartition<V>(keys: seq<string>, s: seq<Entry<V>>)
    ensures SortByPriority(keys, s) == Partition(keys, s)
  {
    if |s| > 0 {
      var init, last := s[..|s| - 1], s[|s| - 1];
      SortIsPartition(keys, init);
      var a, b := Group(keys, true, init), Group(keys, false, init);
      if IsPriority(keys, last) {
        assert |a| == 0 || IsPriority(keys, a[|a| - 1]);
        InsertIntoPartition(keys, a, b, last);
      } else {
        InsertNonPriority(keys, a + b, last);
      }
    }
  }

  /** Each group keeps its own members in order and drops the other group's. */
  lemma {:induction false} GroupOfGroup<V>(keys: seq<string>, flag: bool, other: bool, s: seq<Entry<V>>)
    ensures Group(keys, other, Group(keys, flag, s)) == if other == flag then Group(keys, flag, s) else []
  {
    if |s| > 0 {
      var init, last := s[..|s| - 1], s[|s| - 1];
      GroupOfGroup(keys, flag, other, init);
      var g := Group(keys, flag, init);
      if IsPriority(keys, last) == flag {
        assert (g + [last])[..|g + [last]| - 1] == g;
      }
    }
  }

  /** Grouping distributes over concatenation. */
  lemma {:induction false} GroupAppend<V>(keys: seq<string>, flag: bool, a: seq<Entry<V>>, b: seq<Entry<V>>)
    ensures Group(keys, flag, a + b) == Group(keys, flag, a) + Group(keys, flag, b)
    decreases |b|
  {
    if |b| == 0 {
      assert a + b == a;
    } else {
      var init, last := b[..|b| - 1], b[|b| - 1];
      assert (a + b)[..|a + b| - 1] == a + init;
      assert (a + b)[|a + b| - 1] == last;
      GroupAppend(keys, flag, a, init);
    }
  }

  /** The partition is a permutation of its input. */
  lemma PartitionPermutes<V>(keys: seq<string>, s: seq<Entry<V>>)
    ensures multiset(Partition(keys, s)) == multiset(s)
  {
    SortIsPartition(keys, s);
    SortPermutes(keys, s);
  }

  /** The two groups together hold exactly the elements of `s`. */
  lemma GroupsCover<V>(keys: seq<string>, s: seq<Entry<V>>)
    ensures multiset(Group(keys, true, s)) + multiset(Group(keys, false, s)) == multiset(s)
  {
    PartitionPermutes(keys, s);
  }

  /** No entry without priority comes before an entry with priority. */
  lemma PartitionPriorityFirst<V>(keys: seq<string>, s: seq<Entry<V>>)
    ensures forall i, j :: 0 <= i < j < |Partition(keys, s)| && IsPriority(keys, Partition(keys, s)[j]) ==>
      IsPriority(keys, Partition(keys, s)[i])
  {
    var a, b := Group(keys, true, s), Group(keys, false, s);
    var r := Partition(keys, s);
    assert forall k :: 0 <= k < |a| ==> r[k] == a[k] && IsPriority(keys, r[k]);
    assert forall k :: |a| <= k < |r| ==> r[k] == b[k - |a|] && !IsPriority(keys, r[k]);
  }

  /** Within each group the original relative order is kept. */
  lemma PartitionStable<V>(keys: seq<string>, s: seq<Entry<V>>, flag: bool)
    ensures Group(keys, flag, Partition(keys, s)) == Group(keys, flag, s)
  {
    GroupAppend(keys, flag, Group(keys, true, s), Group(keys, false, s));
    GroupOfGroup(keys, true, flag, s);
    GroupOfGroup(keys, false, flag, s);
  }

  /** The children of a node in visiting order. */
  function ChildOrder<V>(keys: seq<string>, entries: seq<Entry<V>>): (r: seq<Entry<V>>)
    ensures forall k :: 0 <= k < |r| ==> r[k] in entries && !IsMetadataKey(r[k].key)
    ensures |r| == |Visible(entries)|
    ensures multiset(r) == multiset(Visible(entries))
  {
    var visible := Visible(entries);
    var r := SortByPriority(keys, visible);
    SortPermutes(keys, visible);
    assert forall k :: 0 <= k < |r| ==> r[k] in multiset(r);
    assert |r| == |multiset(r)|;
    r
  }

  /** Visiting order is the stable partition of the non-metadata entries. */
  lemma ChildOrderIsPartition<V>(keys: seq<string>, entries: seq<Entry<V>>)
    ensures ChildOrder(keys, entries) == Partition(keys, Visible(entries))
  {
    SortIsPartition(keys, Visible(entries));
  }
}
