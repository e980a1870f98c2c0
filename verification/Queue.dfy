/**
 Doubly linked queues and rings of intrusive nodes (lib/queue.c, include/queue.h). Each list carries the
 sequence of its nodes as a ghost; the operations are proved to do to the links what they do to the sequence.
 */
module Queue {

  /** A record that begins with the list links. */
  class Node<T> {
    var prev: Node?<T>
    var next: Node?<T>
    var rec: T

    constructor (rec: T)
      ensures this.rec == rec && prev == null && next == null
    {
      prev, next := null, null;
      this.rec := rec;
    }
  }

  // ----- Sequences -----

  ghost predicate Distinct<T>(s: seq<T>) {
    forall i, j :: 0 <= i < j < |s| ==> s[i] != s[j]
  }

  ghost predicate Disjoint<T>(a: seq<T>, b: seq<T>) {
    forall i, j :: 0 <= i < |a| && 0 <= j < |b| ==> a[i] != b[j]
  }

  function RemoveAt<T>(s: seq<T>, k: nat): (r: seq<T>)
    requires k < |s|
    ensures |r| == |s| - 1
    ensures forall i :: 0 <= i < |r| ==> r[i] == if i < k then s[i] else s[i + 1]
  {
    s[..k] + s[k + 1..]
  }

  /** The list b is a without the element p; the others keep their order. */
  ghost predicate TakenOut<T>(a: seq<T>, b: seq<T>, p: T) {
    exists k :: 0 <= k < |a| && a[k] == p && b == a[..k] + a[k + 1..]
  }

  /** The place of an element. */
  function IndexOf<T(==)>(s: seq<T>, x: T): (k: nat)
    requires x in s
    ensures k < |s| && s[k] == x
  {
    if s[0] == x then 0 else 1 + IndexOf(s[1..], x)
  }

  lemma {:induction false} IndexUnique<T>(s: seq<T>, i: nat)
    requires Distinct(s) && i < |s|
    ensures s[i] in s && IndexOf(s, s[i]) == i
  {
    if i > 0 {
      assert s[0] != s[i];
      assert s[1..][i - 1] == s[i];
      IndexUnique(s[1..], i - 1);
    }
  }

  function InsertAt<T>(s: seq<T>, k: nat, x: T): (r: seq<T>)
    requires k <= |s|
    ensures |r| == |s| + 1
    ensures forall i :: 0 <= i < |r| ==> r[i] == if i < k then s[i] else if i == k then x else s[i - 1]
  {
    s[..k] + [x] + s[k..]
  }

  lemma RemovedStaysDistinct<T>(s: seq<T>, k: nat)
    requires Distinct(s) && k < |s|
    ensures Distinct(RemoveAt(s, k))
  {
  }

  lemma InsertedStaysDistinct<T>(s: seq<T>, k: nat, x: T)
    requires Distinct(s) && k <= |s| && x !in s
    ensures Distinct(InsertAt(s, k, x))
  {
  }

  // ----- Queues -----

  class Dequeue<T> {
    var first: Node?<T>
    var last: Node?<T>
    ghost var nodes: seq<Node<T>>

    ghost predicate Valid()
      reads this, nodes`prev, nodes`next
    {
      && Distinct(nodes)
      && first == At(0) && last == At(|nodes| - 1)
      && forall i :: 0 <= i < |nodes| ==> LinkedAt(i)
    }

    /** The node at this place, or null beyond both ends. */
    ghost function At(i: int): Node?<T>
      reads this`nodes
    {
      if 0 <= i < |nodes| then nodes[i] else null
    }

    ghost predicate LinkedAt(i: nat)
      requires i < |nodes|
      reads this`nodes, nodes`prev, nodes`next
    {
      nodes[i].prev == At(i - 1) && nodes[i].next == At(i + 1)
    }

    /** DEQUEUE_WIPE */
    constructor ()
      ensures Valid() && nodes == []
    {
      first, last, nodes := null, null, [];
    }

    /** dequeue_remove */
    method Remove(record: Node<T>, ghost k: nat)
      requires Valid() && k < |nodes| && nodes[k] == record
      modifies this, nodes`prev, nodes`next
      ensures Valid() && nodes == RemoveAt(old(nodes), k)
    {
      ghost var s := nodes;
      assert LinkedAt(k);
      var p, n := record.prev, record.next;
      if p != null { p.next := n; }
      if n != null { n.prev := p; }
      if first == record { first := n; }
      if last == record { last := p; }
      nodes := RemoveAt(s, k);
      RemovedStaysDistinct(s, k);
      forall i | 0 <= i < |nodes| ensures LinkedAt(i) {
        var j := if i < k then i else i + 1;
        assert s[j] == nodes[i] && old(LinkedAt(j));
      }
    }

    /** dequeue_insert_after: behind prev, or at the front if prev is null. */
    method InsertAfter(prev: Node?<T>, record: Node<T>, ghost k: nat)
      requires Valid() && k <= |nodes| && prev == At(k - 1) && record !in nodes
      modifies this, nodes`prev, nodes`next, record`prev, record`next
      ensures Valid() && nodes == InsertAt(old(nodes), k, record)
    {
      ghost var s := nodes;
      assert k > 0 ==> LinkedAt(k - 1);
      var next;
      record.prev := prev;
      if prev == null {
        next := first;
        first := record;
      } else {
        next := prev.next;
        prev.next := record;
      }
      record.next := next;
      if next == null {
        last := record;
      } else {
        next.prev := record;
      }
      if first == null { assert false; }     // the last test of the source never succeeds
      nodes := InsertAt(s, k, record);
      InsertedStaysDistinct(s, k, record);
      forall i | 0 <= i < |nodes| ensures LinkedAt(i) {
        var j := if i < k then i else i - 1;
        assert i != k ==> s[j] == nodes[i] && old(LinkedAt(j));
      }
    }

    /** dequeue_push */
    method Push(record: Node<T>)
      requires Valid() && record !in nodes
      modifies this, nodes`prev, nodes`next, record`prev, record`next
      ensures Valid() && nodes == old(nodes) + [record]
    {
      ghost var s := nodes;
      assert s != [] ==> LinkedAt(|s| - 1);
      record.prev := last;
      record.next := null;
      if record.prev == null { first := record; } else { record.prev.next := record; }
      last := record;
      nodes := s + [record];
      forall i | 0 <= i < |nodes| ensures LinkedAt(i) {
        assert i < |s| ==> s[i] == nodes[i] && old(LinkedAt(i));
      }
    }

    /** dequeue_push_front */
    method PushFront(record: Node<T>)
      requires Valid() && record !in nodes
      modifies this, nodes`prev, nodes`next, record`prev, record`next
      ensures Valid() && nodes == [record] + old(nodes)
    {
      ghost var s := nodes;
      assert s != [] ==> LinkedAt(0);
      record.next := first;
      record.prev := null;
      if first == null { last := record; } else { first.prev := record; }
      first := record;
      nodes := [record] + s;
      forall i | 0 <= i < |nodes| ensures LinkedAt(i) {
        assert i > 0 ==> s[i - 1] == nodes[i] && old(LinkedAt(i - 1));
      }
    }

    /** dequeue_pop: the last node, or null. */
    method Pop() returns (record: Node?<T>)
      requires Valid()
      modifies this, nodes`prev, nodes`next
      ensures Valid() && record == old(At(|nodes| - 1))
      ensures nodes == if record == null then [] else old(nodes)[..|old(nodes)| - 1]
    {
      ghost var s := nodes;
      record := last;
      if record == null { return; }
      assert LinkedAt(|s| - 1);
      if record.prev != null { record.prev.next := null; } else { first := null; }
      last := record.prev;
      nodes := s[..|s| - 1];
      forall i | 0 <= i < |nodes| ensures LinkedAt(i) {
        assert s[i] == nodes[i] && old(LinkedAt(i));
      }
    }

    /** dequeue_pop_front: the first node, or null. */
    method PopFront() returns (record: Node?<T>)
      requires Valid()
      modifies this, nodes`prev, nodes`next
      ensures Valid() && record == old(At(0))
      ensures nodes == if record == null then [] else old(nodes)[1..]
    {
      ghost var s := nodes;
      record := first;
      if record == null { return; }
      assert LinkedAt(0);
      if record.next != null { record.next.prev := null; } else { last := null; }
      first := record.next;
      nodes := s[1..];
      forall i | 0 <= i < |nodes| ensures LinkedAt(i) {
        assert s[i + 1] == nodes[i] && old(LinkedAt(i + 1));
      }
    }
  }

  // ----- Rings -----

  /** The place behind place i in a ring of n, and the one before it. */
  function Succ(i: nat, n: nat): (r: nat)
    requires i < n
    ensures r < n
  {
    if i + 1 == n then 0 else i + 1
  }

  function Pred(i: nat, n: nat): (r: nat)
    requires i < n
    ensures r < n && Succ(r, n) == i
  {
    if i == 0 then n - 1 else i - 1
  }

  /** Who is next to whom after place k has been removed from a ring. */
  lemma RemovedNeighbours<T>(s: seq<T>, k: nat, i: nat, j: nat)
    requires k < |s| && i < |s| - 1 && j == if i < k then i else i + 1
    ensures RemoveAt(s, k)[Succ(i, |s| - 1)] == s[if Succ(j, |s|) == k then Succ(k, |s|) else Succ(j, |s|)]
    ensures RemoveAt(s, k)[Pred(i, |s| - 1)] == s[if Pred(j, |s|) == k then Pred(k, |s|) else Pred(j, |s|)]
  {
  }

  class Ring<T> {
    var first: Node?<T>
    var last: Node?<T>
    ghost var nodes: seq<Node<T>>

    /** In a ring last may be out of date, but it is null exactly if the ring is empty. */
    ghost predicate Valid()
      reads this, nodes`prev, nodes`next
    {
      && Distinct(nodes)
      && (if nodes == [] then first == null && last == null else first == nodes[0] && last != null)
      && forall i :: 0 <= i < |nodes| ==> LinkedAt(i)
    }

    ghost predicate LinkedAt(i: nat)
      requires i < |nodes|
      reads this`nodes, nodes`prev, nodes`next
    {
      nodes[i].prev == nodes[Pred(i, |nodes|)] && nodes[i].next == nodes[Succ(i, |nodes|)]
    }

    constructor ()
      ensures Valid() && nodes == []
    {
      first, last, nodes := null, null, [];
    }

    /** In a ring every node is the next of its previous one. */
    lemma PrevNext(k: nat)
      requires Valid() && k < |nodes|
      ensures nodes[k].prev in nodes && nodes[k].prev.next == nodes[k]
      ensures nodes[k].next == nodes[Succ(k, |nodes|)] && nodes[k].prev == nodes[Pred(k, |nodes|)]
    {
      assert LinkedAt(k) && LinkedAt(Pred(k, |nodes|));
    }

    /** clist_remove */
    method Remove(record: Node<T>, ghost k: nat)
      requires Valid() && k < |nodes| && nodes[k] == record
      modifies this, nodes`prev, nodes`next
      ensures Valid() && nodes == RemoveAt(old(nodes), k)
      ensures nodes != [] ==> record.next == null && record.prev == null
    {
      ghost var s := nodes;
      assert LinkedAt(k);
      var p, n := record.prev, record.next;
      if p == record {
        first, last, nodes := null, null, [];
        return;
      }
      if first == record { first := n; }
      p.next := record.next;
      n.prev := record.prev;
      record.next := null;
      record.prev := null;
      nodes := RemoveAt(s, k);
      RemovedStaysDistinct(s, k);
      forall i | 0 <= i < |nodes| ensures LinkedAt(i) {
        var j := if i < k then i else i + 1;
        RemovedNeighbours(s, k, i, j);
        assert s[j] == nodes[i] && old(LinkedAt(j));
      }
    }

    /** clist_insert: in front of the first node, which makes it the successor of the last. */
    method Insert(record: Node<T>)
      requires Valid() && record !in nodes
      modifies this, nodes`prev, nodes`next, record`prev, record`next
      ensures Valid() && nodes == [record] + old(nodes)
    {
      ghost var s := nodes;
      if first == null && last == null {
        first, last := record, record;
        record.prev, record.next := record, record;
        nodes := [record];
        return;
      }
      assert LinkedAt(0);
      var next := first;
      var prev := next.prev;
      record.next := next;
      record.prev := prev;
      next.prev := record;
      prev.next := record;
      first := record;
      nodes := [record] + s;
      forall i | 0 <= i < |nodes| ensures LinkedAt(i) {
        assert i > 0 ==> s[i - 1] == nodes[i] && old(LinkedAt(i - 1));
      }
    }
  }
}
