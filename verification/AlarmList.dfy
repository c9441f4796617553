/** An intrusive circular doubly linked list of alarms. */
module AlarmList {
  import opened AlarmTime

  /** An alarm, or the head of the list, of which only the links are used. */
  class Alarm {
    var next: Alarm?
    var previous: Alarm?
    var deadline: Deadline

    /** The head of an empty list. */
    constructor Head()
      ensures next == this && previous == this
    {
      next, previous := this, this;
    }
  }

  /** An entry whose links point to itself: removed, or never inserted. */
  predicate SelfLinked(a: Alarm)
    reads a
  {
    a.next == a && a.previous == a
  }

  ghost predicate Distinct<T>(s: seq<T>) {
    forall i, j :: 0 <= i < j < |s| ==> s[i] != s[j]
  }

  /** The i-th entry of a list; the head stands before the first and after the last. */
  function Entry(head: Alarm, nodes: seq<Alarm>, i: int): Alarm {
    if 0 <= i < |nodes| then nodes[i] else head
  }

  /** Following `next` from the head visits exactly `nodes` and returns to the head. */
  ghost predicate Forward(head: Alarm, nodes: seq<Alarm>)
    reads head, nodes
  {
    && head.next == Entry(head, nodes, 0)
    && forall i {:trigger nodes[i].next} :: 0 <= i < |nodes| ==> nodes[i].next == Entry(head, nodes, i + 1)
  }

  /** Following `previous` does so in the opposite order. */
  ghost predicate Backward(head: Alarm, nodes: seq<Alarm>)
    reads head, nodes
  {
    && head.previous == Entry(head, nodes, |nodes| - 1)
    && forall i {:trigger nodes[i].previous} :: 0 <= i < |nodes| ==> nodes[i].previous == Entry(head, nodes, i - 1)
  }

  ghost predicate Circular(head: Alarm, nodes: seq<Alarm>)
    reads head, nodes
  {
    head !in nodes && Distinct(nodes) && Forward(head, nodes) && Backward(head, nodes)
  }

  /** The sequence without the elements equal to x. */
  ghost function Without<T>(s: seq<T>, x: T): (r: seq<T>)
    ensures forall y | y in r :: y in s && y != x
    ensures forall y | y in s :: y != x ==> y in r
    ensures |r| <= |s|
  {
    if s == [] then [] else (if s[0] == x then [] else [s[0]]) + Without(s[1..], x)
  }

  lemma {:induction false} WithoutAbsent<T>(s: seq<T>, x: T)
    requires x !in s
    ensures Without(s, x) == s
  {
    if s != [] {
      WithoutAbsent(s[1..], x);
    }
  }

  /** Removing the only occurrence of an element. */
  lemma {:induction false} WithoutAt<T>(s: seq<T>, k: nat)
    requires Distinct(s) && k < |s|
    ensures Without(s, s[k]) == s[..k] + s[k + 1..] && Distinct(Without(s, s[k]))
  {
    var tail := s[1..];
    if k == 0 {
      WithoutAbsent(tail, s[0]);
    } else {
      WithoutAt(tail, k - 1);
      assert s[..k] + s[k + 1..] == [s[0]] + (tail[..k - 1] + tail[k..]);
    }
  }

  /** If the link that led forward to entry k now leads past it and no other one changed, the list
      is what it was without that entry. */
  lemma BypassForward(head: Alarm, nodes: seq<Alarm>, k: nat)
    requires head !in nodes && Distinct(nodes) && k < |nodes|
    requires head.next == Entry(head, nodes, if k == 0 then 1 else 0)
    requires forall i {:trigger nodes[i].next} :: 0 <= i < |nodes| && i != k ==>
               nodes[i].next == Entry(head, nodes, if i == k - 1 then k + 1 else i + 1)
    ensures Forward(head, nodes[..k] + nodes[k + 1..])
  {
    var rest := nodes[..k] + nodes[k + 1..];
    assert forall i :: 0 <= i < |rest| ==> rest[i] == nodes[if i < k then i else i + 1];
  }

  /** The same for the link that led backward to it. */
  lemma BypassBackward(head: Alarm, nodes: seq<Alarm>, k: nat)
    requires head !in nodes && Distinct(nodes) && k < |nodes|
    requires head.previous == Entry(head, nodes, if k == |nodes| - 1 then k - 1 else |nodes| - 1)
    requires forall i {:trigger nodes[i].previous} :: 0 <= i < |nodes| && i != k ==>
               nodes[i].previous == Entry(head, nodes, if i == k + 1 then k - 1 else i - 1)
    ensures Backward(head, nodes[..k] + nodes[k + 1..])
  {
    var rest := nodes[..k] + nodes[k + 1..];
    assert forall i :: 0 <= i < |rest| ==> rest[i] == nodes[if i < k then i else i + 1];
  }

  /** Both together: the whole list without the entry. */
  lemma Bypassed(head: Alarm, nodes: seq<Alarm>, k: nat)
    requires head !in nodes && Distinct(nodes) && k < |nodes|
    requires head.next == Entry(head, nodes, if k == 0 then 1 else 0)
    requires forall i {:trigger nodes[i].next} :: 0 <= i < |nodes| && i != k ==>
               nodes[i].next == Entry(head, nodes, if i == k - 1 then k + 1 else i + 1)
    requires head.previous == Entry(head, nodes, if k == |nodes| - 1 then k - 1 else |nodes| - 1)
    requires forall i {:trigger nodes[i].previous} :: 0 <= i < |nodes| && i != k ==>
               nodes[i].previous == Entry(head, nodes, if i == k + 1 then k - 1 else i - 1)
    ensures Circular(head, Without(nodes, nodes[k]))
  {
    BypassForward(head, nodes, k);
    BypassBackward(head, nodes, k);
    WithoutAt(nodes, k);
  }

  /** Links `entry` in directly after the head. */
  method Insert(head: Alarm, entry: Alarm, ghost nodes: seq<Alarm>)
    requires Circular(head, nodes) && entry != head && entry !in nodes
    modifies head`next, head`previous, entry`next, entry`previous, (set a | a in nodes)`previous
    ensures Circular(head, [entry] + nodes)
  {
    entry.previous := head;
    entry.next := head.next;
    head.next.previous := entry;
    head.next := entry;
  }

  /** Unlinks `entry` from its neighbours and makes it point to itself; no other link changes. */
  method Remove(entry: Alarm)
    requires entry.next != null && entry.previous != null
    modifies entry`next, entry`previous, entry.next`previous, entry.previous`next
    ensures SelfLinked(entry)
    ensures old(entry.next) != entry ==> old(entry.next).previous == old(entry.previous)
    ensures old(entry.previous) != entry ==> old(entry.previous).next == old(entry.next)
  {
    entry.next.previous := entry.previous;
    entry.previous.next := entry.next;
    entry.previous := entry;
    entry.next := entry;
  }

  /** What `Remove` does to the list.  An entry that is not linked is left as it is, and so is the
      list: removing twice is harmless. */
  method RemoveFrom(head: Alarm, entry: Alarm, ghost nodes: seq<Alarm>)
    requires Circular(head, nodes) && (entry in nodes || (entry != head && SelfLinked(entry)))
    modifies head`next, head`previous, entry`next, entry`previous,
             (set a | a in nodes)`next, (set a | a in nodes)`previous
    ensures Circular(head, Without(nodes, entry)) && SelfLinked(entry)
    ensures entry !in nodes ==> unchanged(head) && unchanged(nodes) && unchanged(entry)
  {
    ghost var before, after := entry.previous, entry.next;
    ghost var k :| entry in nodes ==> 0 <= k < |nodes| && nodes[k] == entry;
    Remove(entry);
    if entry !in nodes {
      WithoutAbsent(nodes, entry);
    } else {
      assert before == Entry(head, nodes, k - 1) && after == Entry(head, nodes, k + 1);
      Bypassed(head, nodes, k);
    }
  }
}
