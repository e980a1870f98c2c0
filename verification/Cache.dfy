/**
 The buffer cache as a state machine (kern/io/buf.c, kern/io/fs.c, kern/io/syncer.c, kern/io/obj_ops.c), for
 cached objects of whole blocks. An event is one change of the cache that all of its callers leave complete.
 */
module Cache {
  import opened Bytes
  import opened Common
  import opened Queue

  type Data = seq<Byte>

  /** struct buf; its place in bufs is its address. */
  datatype Buf = Buf(obj: nat, blk: nat, data: Data, refcnt: Byte, dirty: bool)

  /** struct obj with what its driver stores. */
  datatype Obj = Obj(blksize: nat, size: nat, dirtybufs: Byte, list: seq<nat>, disk: map<nat, Data>)

  type Table = seq<Option<nat>>

  datatype State = State(
    sortReused: bool,                // BUF_SORT_REUSED
    bufs: seq<Buf>,                  // all records of buffer_pool
    unused: seq<nat>,                // buffer_pool.unused
    objs: seq<Obj>,
    tables: seq<Table>,              // per process: the buffers it references
    inUse: int)                      // buffers_in_use

  // ----- The block store that the cache stands for -----

  function Zeros(n: nat): Data { seq(n, _ => 0) }

  /** What the driver has for a block; blocks that were never written are zero. */
  function OnDisk(o: Obj, blk: nat): Data {
    if blk in o.disk then o.disk[blk] else Zeros(o.blksize)
  }

  predicate InRange(list: seq<nat>, n: nat) {
    forall i :: 0 <= i < |list| ==> list[i] < n
  }

  /** The first place from i on of a buffer with this block. */
  function FirstFrom(bufs: seq<Buf>, list: seq<nat>, blk: nat, i: nat): (r: Option<nat>)
    requires InRange(list, |bufs|) && i <= |list|
    ensures r.Some? ==> i <= r.value < |list| && bufs[list[r.value]].blk == blk
    ensures r.None? ==> forall j :: i <= j < |list| ==> bufs[list[j]].blk != blk
    decreases |list| - i
  {
    if i == |list| then None else if bufs[list[i]].blk == blk then Some(i) else FirstFrom(bufs, list, blk, i + 1)
  }

  /** The buffer that holds this block, if any. */
  function Found(bufs: seq<Buf>, list: seq<nat>, blk: nat): (r: Option<nat>)
    requires InRange(list, |bufs|)
    ensures r.Some? ==> r.value in list && r.value < |bufs| && bufs[r.value].blk == blk
  {
    match FirstFrom(bufs, list, blk, 0) case Some(i) => Some(list[i]) case None => None
  }

  ghost function Cached(s: State, o: nat, blk: nat): Option<nat>
    requires Places(s) && o < |s.objs|
  {
    assert ListOk(s, o);
    Found(s.bufs, s.objs[o].list, blk)
  }

  /** The block as clients are to see it: what a dirty buffer holds, otherwise what the driver has. */
  ghost function Logical(s: State, o: nat, blk: nat): Data
    requires Places(s) && o < |s.objs|
  {
    var b := Cached(s, o, blk);
    if b.Some? && s.bufs[b.value].dirty then s.bufs[b.value].data else OnDisk(s.objs[o], blk)
  }

  // ----- Invariant -----

  ghost predicate Listed(s: State, b: nat) {
    b < |s.bufs| && s.bufs[b].obj < |s.objs| && b in s.objs[s.bufs[b].obj].list
  }

  /** The list of one object: its own buffers, each once, and at most one per block. */
  ghost predicate ListOk(s: State, o: nat)
    requires o < |s.objs|
  {
    var list := s.objs[o].list;
    && Distinct(list) && InRange(list, |s.bufs|)
    && (forall i :: 0 <= i < |list| ==> s.bufs[list[i]].obj == o && list[i] !in s.unused)
    && forall i, j :: 0 <= i < j < |list| ==> s.bufs[list[i]].blk != s.bufs[list[j]].blk
  }

  /** Every record is on the unused list or on the list of its object. */
  ghost predicate Places(s: State) {
    && Distinct(s.unused) && InRange(s.unused, |s.bufs|)
    && (forall o :: 0 <= o < |s.objs| ==> ListOk(s, o))
    && forall b :: 0 <= b < |s.bufs| ==> b in s.unused || Listed(s, b)
  }

  ghost function DirtySet(s: State, o: nat): set<nat>
    requires o < |s.objs|
  {
    set b | b in s.objs[o].list && b < |s.bufs| && s.bufs[b].dirty
  }

  ghost function ListedSet(s: State): set<nat> {
    set b | 0 <= b < |s.bufs| && Listed(s, b)
  }

  /** How often a table has an entry. */
  function CountIn(t: Table, e: Option<nat>): nat {
    if t == [] then 0 else CountIn(t[..|t| - 1], e) + if t[|t| - 1] == e then 1 else 0
  }

  function Entries(tables: seq<Table>, e: Option<nat>): nat {
    if tables == [] then 0 else Entries(tables[..|tables| - 1], e) + CountIn(tables[|tables| - 1], e)
  }

  function Refs(tables: seq<Table>, b: nat): nat { Entries(tables, Some(b)) }

  /** The byte counts references modulo 256. Only listed buffers have any. */
  ghost predicate RefsOk(s: State, b: nat)
    requires b < |s.bufs|
  {
    if Listed(s, b) then s.bufs[b].refcnt as int == Refs(s.tables, b) % 0x100 else Refs(s.tables, b) == 0
  }

  /** The counter of dirty buffers is right, and nothing has been written beyond the end. */
  ghost predicate ObjOk(s: State, o: nat)
    requires o < |s.objs|
  {
    && s.objs[o].dirtybufs == |DirtySet(s, o)| % 0x100
    && forall k :: k in s.objs[o].disk ==> k < s.objs[o].size
  }

  /** Tables refer to records of the pool. */
  ghost predicate TableOk(t: Table, n: nat) {
    forall b: nat :: Some(b) in t ==> b < n
  }

  ghost predicate EntriesOk(s: State) {
    forall p :: 0 <= p < |s.tables| ==> TableOk(s.tables[p], |s.bufs|)
  }

  ghost predicate Inv(s: State) {
    && Places(s) && EntriesOk(s) && s.inUse == |ListedSet(s)|
    && (forall b :: 0 <= b < |s.bufs| ==> RefsOk(s, b))
    && forall o :: 0 <= o < |s.objs| ==> ObjOk(s, o)
  }

  // ----- Events -----

  datatype Event =
    | Reused(p: nat, o: nat, blk: nat)                       // bref finds the buffer
    | Created(p: nat, o: nat, blk: nat, read: bool)          // bref takes a record from the pool
    | Failed(f: Buf)                                         // a record taken in vain goes back to the pool
    | Freed(b: nat)                                          // bfree
    | Unrefd(p: nat, b: nat)                                 // bunrefp
    | Dirtied(b: nat)                                        // _bdirty
    | Wrote(b: nat)                                          // bwrite
    | Put(b: nat, data: Data)                                // a client writes into the buffer's data

  /** The first entry from i on that equals e. */
  function EntryFrom(t: Table, e: Option<nat>, i: nat): (r: Option<nat>)
    requires i <= |t|
    ensures r.Some? ==> i <= r.value < |t| && t[r.value] == e
    ensures r.None? ==> forall j :: i <= j < |t| ==> t[j] != e
    decreases |t| - i
  {
    if i == |t| then None else if t[i] == e then Some(i) else EntryFrom(t, e, i + 1)
  }

  function EntryOf(t: Table, e: Option<nat>): (r: Option<nat>)
    ensures r.Some? ==> r.value < |t| && t[r.value] == e
    ensures r.None? ==> e !in t
  {
    EntryFrom(t, e, 0)
  }

  lemma {:induction false} FirstEntry(t: Table, e: Option<nat>, k: nat, i: nat)
    requires k <= i < |t| && t[i] == e && forall j :: k <= j < i ==> t[j] != e
    ensures EntryFrom(t, e, k) == Some(i)
    decreases i - k
  {
    if k < i { FirstEntry(t, e, k + 1, i); }
  }

  function Up(n: Byte): Byte { ((n as int) + 1) % 0x100 }

  function Down(n: Byte): Byte { ((n as int) + 0xff) % 0x100 }

  /** DEQUEUE_REMOVE and DEQUEUE_PUSH_FRONT of the buffer at place i. */
  function ToFront(list: seq<nat>, i: nat): seq<nat>
    requires i < |list|
  {
    [list[i]] + RemoveAt(list, i)
  }

  /** There is a record for a block that is not cached. */
  ghost predicate CanEnter(s: State, o: nat, blk: nat, read: bool)
    requires Places(s)
  {
    o < |s.objs| && Cached(s, o, blk).None? && s.unused != [] && blk < 0xffff && (read ==> blk < s.objs[o].size)
  }

  /** There is a free entry in the process's table. */
  predicate HasRoom(tables: seq<Table>, p: nat) {
    p < |tables| && EntryOf(tables[p], None).Some?
  }

  /** What may have been set in a record that was taken in vain. */
  ghost predicate GoesBack(s: State, f: Buf) {
    s.unused != [] && f.obj < |s.objs| && f.blk < 0xffff && f.refcnt == 1 && !f.dirty
  }

  ghost predicate Legal(s: State, e: Event)
    requires Inv(s)
  {
    match e
    case Reused(p, o, blk) =>
      HasRoom(s.tables, p) && o < |s.objs| && Cached(s, o, blk).Some?
    case Created(p, o, blk, read) => HasRoom(s.tables, p) && CanEnter(s, o, blk, read)
    case Failed(f) => GoesBack(s, f)
    case Freed(b) => Listed(s, b) && Refs(s.tables, b) == 0 && !s.bufs[b].dirty
    case Unrefd(p, b) => p < |s.tables| && b < |s.bufs| && Some(b) in s.tables[p]
    case Dirtied(b) => Listed(s, b)
    case Wrote(b) => Listed(s, b)
    case Put(b, data) => Listed(s, b)
  }

  ghost function Register(s: State, p: nat, b: nat): State
    requires HasRoom(s.tables, p)
  {
    s.(tables := s.tables[p := s.tables[p][EntryOf(s.tables[p], None).value := Some(b)]])
  }

  /** blookup: one more reference, and the buffer may move to the front. */
  ghost function Touch(s: State, o: nat, blk: nat): State
    requires Places(s) && o < |s.objs| && Cached(s, o, blk).Some?
  {
    assert ListOk(s, o);
    var list := s.objs[o].list;
    var i := FirstFrom(s.bufs, list, blk, 0).value;
    s.(bufs := s.bufs[list[i] := s.bufs[list[i]].(refcnt := Up(s.bufs[list[i]].refcnt))],
       objs := if s.sortReused then s.objs[o := s.objs[o].(list := ToFront(list, i))] else s.objs)
  }

  ghost function Reuse(s: State, p: nat, o: nat, blk: nat): State
    requires Inv(s) && Legal(s, Reused(p, o, blk))
  {
    Register(Touch(s, o, blk), p, Cached(s, o, blk).value)
  }

  function NewBuf(o: Obj, obj: nat, blk: nat, read: bool): Buf {
    Buf(obj, blk, if read then OnDisk(o, blk) else Zeros(o.blksize), 1, false)
  }

  /** The last record of the pool is taken for a block. */
  ghost function Enter(s: State, o: nat, blk: nat, read: bool): State
    requires Places(s) && CanEnter(s, o, blk, read)
  {
    var b := s.unused[|s.unused| - 1];
    var list := if s.sortReused then s.objs[o].list + [b] else [b] + s.objs[o].list;
    s.(unused := s.unused[..|s.unused| - 1], bufs := s.bufs[b := NewBuf(s.objs[o], o, blk, read)],
       objs := s.objs[o := s.objs[o].(list := list)], inUse := s.inUse + 1)
  }

  ghost function Create(s: State, p: nat, o: nat, blk: nat, read: bool): State
    requires Places(s) && HasRoom(s.tables, p) && CanEnter(s, o, blk, read)
  {
    Register(Enter(s, o, blk, read), p, s.unused[|s.unused| - 1])
  }

  /** The last record has been popped and has gone back to the pool with the fields that were set meanwhile. */
  ghost function Fail(s: State, f: Buf): State
    requires s.unused != [] && s.unused[|s.unused| - 1] < |s.bufs|
  {
    s.(bufs := s.bufs[s.unused[|s.unused| - 1] := f])
  }

  ghost function Free(s: State, b: nat): State
    requires Listed(s, b)
  {
    var o := s.bufs[b].obj;
    s.(objs := s.objs[o := s.objs[o].(list := RemoveAt(s.objs[o].list, IndexOf(s.objs[o].list, b)))],
       unused := s.unused + [b], inUse := s.inUse - 1)
  }

  ghost function Unref(s: State, p: nat, b: nat): State
    requires p < |s.tables| && b < |s.bufs| && Some(b) in s.tables[p]
  {
    s.(bufs := s.bufs[b := s.bufs[b].(refcnt := Down(s.bufs[b].refcnt))],
       tables := s.tables[p := s.tables[p][EntryOf(s.tables[p], Some(b)).value := None]])
  }

  ghost function Dirty(s: State, b: nat): State
    requires Listed(s, b)
  {
    if s.bufs[b].dirty then s
    else
      var o := s.bufs[b].obj;
      s.(bufs := s.bufs[b := s.bufs[b].(dirty := true)],
         objs := s.objs[o := s.objs[o].(dirtybufs := Up(s.objs[o].dirtybufs))])
  }

  /** The driver's io for writing, and the extension of the object. */
  function Stored(o: Obj, blk: nat, data: Data): Obj {
    o.(disk := o.disk[blk := data], size := if blk >= o.size then blk + 1 else o.size)
  }

  ghost function Write(s: State, b: nat): State
    requires Listed(s, b)
  {
    var o, f := s.bufs[b].obj, s.bufs[b];
    s.(bufs := s.bufs[b := f.(dirty := false)],
       objs := s.objs[o := Stored(s.objs[o], f.blk, f.data).(
         dirtybufs := if f.dirty then Down(s.objs[o].dirtybufs) else s.objs[o].dirtybufs)])
  }

  ghost function Next(s: State, e: Event): State
    requires Inv(s) && Legal(s, e)
  {
    match e
    case Reused(p, o, blk) => Reuse(s, p, o, blk)
    case Created(p, o, blk, read) => Create(s, p, o, blk, read)
    case Failed(f) => Fail(s, f)
    case Freed(b) => Free(s, b)
    case Unrefd(p, b) => Unref(s, p, b)
    case Dirtied(b) => Dirty(s, b)
    case Wrote(b) => Write(s, b)
    case Put(b, data) => s.(bufs := s.bufs[b := s.bufs[b].(data := data)])
  }

  // ----- References in the tables -----

  lemma {:induction false} CountInUpdate(t: Table, i: nat, e: Option<nat>, x: Option<nat>)
    requires i < |t|
    ensures CountIn(t[i := e], x) == CountIn(t, x) - (if t[i] == x then 1 else 0) + if e == x then 1 else 0
  {
    var last := |t| - 1;
    if i == last {
      assert t[i := e][..last] == t[..last];
    } else {
      assert t[i := e][..last] == t[..last][i := e];
      CountInUpdate(t[..last], i, e, x);
    }
  }

  lemma {:induction false} TableUpdate(ts: seq<Table>, p: nat, t: Table, x: Option<nat>)
    requires p < |ts|
    ensures Entries(ts[p := t], x) == Entries(ts, x) - CountIn(ts[p], x) + CountIn(t, x)
  {
    var last := |ts| - 1;
    if p == last {
      assert ts[p := t][..last] == ts[..last];
    } else {
      assert ts[p := t][..last] == ts[..last][p := t];
      TableUpdate(ts[..last], p, t, x);
    }
  }

  /** Changing one entry of a process's table. */
  lemma EntryUpdate(ts: seq<Table>, p: nat, i: nat, e: Option<nat>, x: Option<nat>)
    requires p < |ts| && i < |ts[p]|
    ensures Entries(ts[p := ts[p][i := e]], x)
         == Entries(ts, x) - (if ts[p][i] == x then 1 else 0) + if e == x then 1 else 0
  {
    CountInUpdate(ts[p], i, e, x);
    TableUpdate(ts, p, ts[p][i := e], x);
  }

  lemma {:induction false} EntryCounts(t: Table, i: nat, b: nat)
    requires i < |t| && t[i] == Some(b)
    ensures CountIn(t, Some(b)) >= 1
  {
    CountInUpdate(t, i, None, Some(b));
  }

  /** A buffer that a table refers to is on a list. */
  lemma ReferencedIsListed(s: State, p: nat, b: nat)
    requires Inv(s) && p < |s.tables| && b < |s.bufs| && Some(b) in s.tables[p]
    ensures Listed(s, b) && Refs(s.tables, b) >= 1
  {
    var i :| 0 <= i < |s.tables[p]| && s.tables[p][i] == Some(b);
    EntryCounts(s.tables[p], i, b);
    TableUpdate(s.tables, p, [], Some(b));
    assert RefsOk(s, b);
  }
}
