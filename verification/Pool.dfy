/**
 Memory pools (kern/mem/pool.c, include/pool.h): a fixed array of records, each unused, on the pool's own
 list of used records, or taken off both lists by its owner.
 */
module Pool {
  import opened Queue

  class Pool<T> {
    const used: Dequeue<T>
    const unused: Dequeue<T>

    ghost predicate Valid()
      reads used, unused, used.nodes`prev, used.nodes`next, unused.nodes`prev, unused.nodes`next
    {
      used != unused && used.Valid() && unused.Valid() && Disjoint(used.nodes, unused.nodes)
    }

    /** pool_create on the block that kmalloc has returned: its records become the unused list. */
    constructor Create(area: array<Node<T>>)
      requires Distinct(area[..])
      modifies area[..]`prev, area[..]`next
      ensures Valid() && fresh(used) && fresh(unused) && used.nodes == [] && unused.nodes == area[..]
    {
      used := new Dequeue<T>();
      unused := new Dequeue<T>();
      new;
      if area.Length != 0 { Link(unused, area); }
    }

    /** pool_alloc: a record that moves to the list of used ones, or null. */
    method Alloc() returns (rec: Node?<T>)
      requires Valid()
      modifies used, unused, used.nodes`prev, used.nodes`next, unused.nodes`prev, unused.nodes`next
      ensures Valid() && rec == old(unused.At(|unused.nodes| - 1))
      ensures rec == null ==> unused.nodes == old(unused.nodes) == [] && used.nodes == old(used.nodes)
      ensures rec != null ==>
        old(unused.nodes) == unused.nodes + [rec] && used.nodes == old(used.nodes) + [rec]
    {
      rec := unused.Pop();
      if rec == null { return; }
      used.Push(rec);
    }

    /** pool_salloc: a record that is on none of the pool's lists any more, or null. */
    method Salloc() returns (rec: Node?<T>)
      requires Valid()
      modifies unused, unused.nodes`prev, unused.nodes`next
      ensures Valid() && rec == old(unused.At(|unused.nodes| - 1)) && used.nodes == old(used.nodes)
      ensures rec == null ==> unused.nodes == old(unused.nodes) == []
      ensures rec != null ==> old(unused.nodes) == unused.nodes + [rec]
    {
      rec := unused.Pop();
    }

    /** pool_free */
    method Free(rec: Node<T>, ghost k: nat)
      requires Valid() && k < |used.nodes| && used.nodes[k] == rec
      modifies used, unused, used.nodes`prev, used.nodes`next, unused.nodes`prev, unused.nodes`next
      ensures Valid() && used.nodes == RemoveAt(old(used.nodes), k) && unused.nodes == old(unused.nodes) + [rec]
    {
      used.Remove(rec, k);
      unused.Push(rec);
    }

    /** POOL_SFREE */
    method Sfree(rec: Node<T>)
      requires Valid() && rec !in used.nodes && rec !in unused.nodes
      modifies unused, unused.nodes`prev, unused.nodes`next, rec`prev, rec`next
      ensures Valid() && unused.nodes == old(unused.nodes) + [rec] && used.nodes == old(used.nodes)
    {
      unused.Push(rec);
    }
  }

  /** The first n records of a block are linked in order. */
  ghost predicate Linked<T>(s: seq<Node<T>>, n: nat)
    requires n <= |s|
    reads s
  {
    forall i :: 0 <= i < n ==> LinkedHere(s, i)
  }

  ghost predicate LinkedHere<T>(s: seq<Node<T>>, i: nat)
    requires i < |s|
    reads s
  {
    s[i].prev == (if i == 0 then null else s[i - 1]) && s[i].next == (if i + 1 < |s| then s[i + 1] else null)
  }

  /** The loop of pool_create. */
  method Link<T>(list: Dequeue<T>, area: array<Node<T>>)
    requires area.Length > 0 && Distinct(area[..])
    modifies list, area[..]`prev, area[..]`next
    ensures list.Valid() && list.nodes == area[..]
  {
    ghost var s := area[..];
    var prev: Node?<T> := null;
    var i := 0;
    list.first := area[0];
    while true
      invariant 0 <= i < area.Length && list.first == s[0] && Linked(s, i)
      invariant prev == if i == 0 then null else s[i - 1]
      decreases area.Length - i
    {
      label Before:
      area[i].prev := prev;
      area[i].next := if i + 1 < area.Length then area[i + 1] else null;
      forall k | 0 <= k < i ensures LinkedHere(s, k) {
        assert s[k] != s[i] && old@Before(LinkedHere(s, k));
      }
      if area[i].next == null { break; }
      prev := area[i];
      i := i + 1;
    }
    assert LinkedHere(s, i);
    label Linked:
    list.last := area[i];
    list.nodes := s;
    forall k | 0 <= k < |s| ensures list.LinkedAt(k) {
      assert old@Linked(LinkedHere(s, k));
    }
  }
}
