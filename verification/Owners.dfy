/**
 Processes as the allocator sees them: an id and one stack of free fragments per size.
 */
module Owners {
  import opened Pages
  import opened FragStack
  import opened FragSets
  import opened Heap
  import opened HeapSteps
  import opened Blocks
  import PageTable

  /** The entries that mem_frag_add_page pushes first. */
  function PieceSeq(page: nat, n: nat): seq<Frag> {
    if n == 0 then [] else PieceSeq(page, n - 1) + [Frag(page, n - 1)]
  }

  lemma HoldsOneMore(s: seq<Frag>, fs: set<Frag>, f: Frag)
    requires Holding(s, fs) && f !in fs
    ensures Holding(s + [f], fs + {f})
  {
    assert multiset(fs + {f}) == multiset(fs) + multiset{f};
  }

  lemma HoldsPushed(s: seq<Frag>, t: seq<Frag>, fs: set<Frag>, f: Frag, pushed: bool)
    requires Holding(s, fs) && f !in fs && t == if pushed then s + [f] else s
    ensures Holding(t, fs + if pushed then {f} else {})
  {
    if pushed { HoldsOneMore(s, fs, f); } else { assert fs + {} == fs; }
  }

  lemma {:induction false} PieceSeqHolds(page: nat, n: nat)
    ensures |PieceSeq(page, n)| == n && Holding(PieceSeq(page, n), PagePieces(page, n))
  {
    if n > 0 {
      PieceSeqHolds(page, n - 1);
      var before, f := PagePieces(page, n - 1), Frag(page, n - 1);
      assert f !in before && forall g :: g in PagePieces(page, n) <==> g in before + {f};
      assert PagePieces(page, n) == before + {f};
      HoldsOneMore(PieceSeq(page, n - 1), before, f);
    }
  }

  /** The loop of mem_frag_add_page. Its roll-back for a full stack is never needed after the check of FRAGSPACE. */
  method PushPieces(st: Stack, page: nat, num: nat)
    requires st.Valid() && st.index == 0 && num <= st.entries.Length
    modifies st, st.entries
    ensures st.Valid() && st.Contents() == PieceSeq(page, num)
  {
    var i := 0;
    while i < num
      invariant 0 <= i <= num && st.Valid() && st.index == i && st.Contents() == PieceSeq(page, i)
    {
      var pushed := st.Push(Frag(page, i));
      if !pushed { assert false; }
      i := i + 1;
    }
  }

  /** A stack that holds a set of free fragments, with one more. */
  method PushFree(st: Stack, f: Frag, ghost fs: set<Frag>) returns (pushed: bool)
    requires st.Valid() && Holding(st.Contents(), fs) && f !in fs
    modifies st, st.entries
    ensures st.Valid() && pushed == (|fs| < st.entries.Length)
    ensures Holding(st.Contents(), fs + if pushed then {f} else {})
  {
    ghost var s := st.Contents();
    HoldingSize(s, fs);
    pushed := st.Push(f);
    HoldsPushed(s, st.Contents(), fs, f, pushed);
  }

  /** And with one less. */
  method PopFree(st: Stack, ghost fs: set<Frag>) returns (f: Frag)
    requires st.Valid() && Holding(st.Contents(), fs) && fs != {}
    modifies st
    ensures st.Valid() && f in fs && Holding(st.Contents(), fs - {f})
  {
    HoldingSize(st.Contents(), fs);
    var top := st.Pop();
    f := top.value;
    HoldsOneLess(st.Contents(), f, fs);
  }

  lemma HoldingSize(s: seq<Frag>, fs: set<Frag>)
    requires Holding(s, fs)
    ensures |s| == |fs|
  {
    assert |multiset(s)| == |s| && |multiset(fs)| == |fs|;
  }

  type Stacks = map<(nat, nat), set<Frag>>

  class Proc {
    const id: nat
    const stacks: seq<Stack>         // fragment_stacks: FRAG_STACK(proc, fs) is stacks[fs - 1]

    constructor (id: nat, stacks: seq<Stack>)
      ensures this.id == id && this.stacks == stacks
    {
      this.id, this.stacks := id, stacks;
    }

    ghost function Arrays(): set<object> {
      set i | 0 <= i < |stacks| :: stacks[i].entries
    }

    ghost function Repr(): set<object> {
      (set i | 0 <= i < |stacks| :: stacks[i]) + Arrays()
    }

    predicate Distinct(c: Config)
      requires c.Valid()
    {
      && id < c.Owners() && |stacks| == c.Sizes()
      && (forall i :: 0 <= i < |stacks| ==> stacks[i].entries.Length == StackCapacity(c))
      && (forall i, j :: 0 <= i < |stacks| && 0 <= j < |stacks| && i != j ==> Apart(i, j))
    }

    predicate Apart(i: nat, j: nat)
      requires i < |stacks| && j < |stacks|
    {
      stacks[i] != stacks[j] && stacks[i].entries != stacks[j].entries
    }

    /** A stack holds the fragments that are free for this process and size. */
    ghost predicate Is(m: Stacks, i: nat)
      requires i < |stacks|
      reads stacks[i], stacks[i].entries
    {
      stacks[i].Valid() && Holding(stacks[i].Contents(), FreeOf(m, id, i + 1))
    }

    ghost predicate Holds(c: Config, m: Stacks)
      requires c.Valid()
      reads Repr()
    {
      Distinct(c) && forall i :: 0 <= i < |stacks| ==> Is(m, i)
    }

    lemma StackSize(c: Config, m: Stacks, fs: nat)
      requires c.Valid() && Holds(c, m) && 1 <= fs <= c.Sizes()
      ensures stacks[fs - 1].index == |FreeOf(m, id, fs)|
    {
      assert Is(m, fs - 1);
      HoldingSize(stacks[fs - 1].Contents(), FreeOf(m, id, fs));
    }

    /** One stack has changed. */
    lemma HoldsUpdated(c: Config, m: Stacks, fs: nat, free: set<Frag>)
      requires c.Valid() && Distinct(c) && 1 <= fs <= c.Sizes()
      requires stacks[fs - 1].Valid() && Holding(stacks[fs - 1].Contents(), free)
      requires forall i :: 0 <= i < |stacks| && i != fs - 1 ==> Is(m, i)
      ensures Holds(c, m[(id, fs) := free])
    {
      var m' := m[(id, fs) := free];
      forall i | 0 <= i < |stacks| ensures Is(m', i) {
        assert i != fs - 1 ==> Is(m, i);
      }
    }

    /** All pieces of a new page are pushed. */
    method Fill(c: Config, ghost m: Stacks, fs: nat, page: nat)
      requires c.Valid() && Holds(c, m) && 1 <= fs <= c.Sizes() && stacks[fs - 1].index == 0
      requires Pow2(fs) <= StackCapacity(c)
      modifies stacks[fs - 1], stacks[fs - 1].entries
      ensures Holds(c, m[(id, fs) := PagePieces(page, Pow2(fs))]) && stacks[fs - 1].index > 0
    {
      ghost var free := PagePieces(page, Pow2(fs));
      PieceSeqHolds(page, Pow2(fs));
      PushPieces(stacks[fs - 1], page, Pow2(fs));
      forall i | 0 <= i < |stacks| && i != fs - 1 ensures Is(m, i) {
        assert Apart(i, fs - 1) && old(Is(m, i));
      }
      HoldsUpdated(c, m, fs, free);
    }

    /** FRAG_POP */
    method Take(c: Config, ghost m: Stacks, fs: nat) returns (f: Frag)
      requires c.Valid() && Holds(c, m) && 1 <= fs <= c.Sizes() && stacks[fs - 1].index > 0
      modifies stacks[fs - 1]
      ensures f in FreeOf(m, id, fs) && Holds(c, m[(id, fs) := FreeOf(m, id, fs) - {f}])
    {
      StackSize(c, m, fs);
      assert Is(m, fs - 1);
      f := PopFree(stacks[fs - 1], FreeOf(m, id, fs));
      ghost var free := FreeOf(m, id, fs) - {f};
      forall i | 0 <= i < |stacks| && i != fs - 1 ensures Is(m, i) {
        assert Apart(i, fs - 1) && old(Is(m, i));
      }
      HoldsUpdated(c, m, fs, free);
    }

    /** mem_frag_clean_stack */
    method Clean(c: Config, ghost m: Stacks, frag: nat, table: PageTable.Table)
      requires table.Valid() && c == table.cfg && Chained(table.pages) && Holds(c, m) && 1 <= frag <= c.Sizes()
      requires OnPages(c, table.pages, id, frag, FreeOf(m, id, frag)) && table.bits !in Arrays()
      requires table.list !in Arrays()
      modifies stacks[frag - 1], stacks[frag - 1].entries, table`pages, table`numFree, table.bits, table.list
      ensures table.Valid()
      ensures var full := FullPages(FreeOf(m, id, frag), Pow2(frag));
        && Holds(c, m[(id, frag) := OffPages(FreeOf(m, id, frag), full)])
        && FreedPages(old(table.pages), table.pages, full)
        && table.numFree == old(table.numFree) + |full|
    {
      assert Is(m, frag - 1);
      CleanSet(c, stacks[frag - 1], frag, id, FreeOf(m, id, frag), table);
      ghost var free := OffPages(FreeOf(m, id, frag), FullPages(FreeOf(m, id, frag), Pow2(frag)));
      forall i | 0 <= i < |stacks| && i != frag - 1 ensures Is(m, i) {
        assert Apart(i, frag - 1) && old(Is(m, i));
      }
      HoldsUpdated(c, m, frag, free);
    }

    /** FRAG_PUSH */
    method Give(c: Config, ghost m: Stacks, fs: nat, f: Frag) returns (pushed: bool)
      requires c.Valid() && Holds(c, m) && 1 <= fs <= c.Sizes() && f !in FreeOf(m, id, fs)
      modifies stacks[fs - 1], stacks[fs - 1].entries
      ensures pushed == (|FreeOf(m, id, fs)| < StackCapacity(c))
      ensures Holds(c, m[(id, fs) := FreeOf(m, id, fs) + if pushed then {f} else {}])
    {
      assert Is(m, fs - 1);
      pushed := PushFree(stacks[fs - 1], f, FreeOf(m, id, fs));
      ghost var free := FreeOf(m, id, fs) + if pushed then {f} else {};
      forall i | 0 <= i < |stacks| && i != fs - 1 ensures Is(m, i) {
        assert Apart(i, fs - 1) && old(Is(m, i));
      }
      HoldsUpdated(c, m, fs, free);
    }
  }

  /** What a stack's fragments say about their pages. */
  ghost predicate OnPages(c: Config, pages: seq<Page>, owner: nat, frag: nat, fs: set<Frag>) {
    forall f :: f in fs ==> PieceOk(c, pages, f.page, f.idx, frag, owner)
  }

  /**
   mem_frag_clean_stack on a stack that holds these fragments: exactly the pages all of whose pieces are
   free go back, and exactly their pieces leave the stack.
   */
  method CleanSet(c: Config, st: Stack, frag: nat, owner: nat, ghost fs: set<Frag>, table: PageTable.Table)
    requires st.Valid() && table.Valid() && c == table.cfg && Chained(table.pages) && 1 <= frag <= c.Sizes()
    requires Holding(st.Contents(), fs) && OnPages(c, table.pages, owner, frag, fs) && FragStack.Apart(st, table)
    modifies st, st.entries, table`pages, table`numFree, table.bits, table.list
    ensures st.Valid() && table.Valid()
    ensures var full := FullPages(fs, Pow2(frag));
      && Holding(st.Contents(), OffPages(fs, full)) && FreedPages(old(table.pages), table.pages, full)
      && table.numFree == old(table.numFree) + |full|
  {
    ghost var s := st.Contents();
    forall i | 0 <= i < |s| ensures ReadyAt(table.pages, s, i) {
      assert s[i] in multiset(s);
      assert PieceOk(c, table.pages, s[i].page, s[i].idx, frag, owner);
    }
    CompleteIsFull(s, fs, Pow2(frag));
    WithoutIsOffPages(s, fs, Complete(s, Pow2(frag)));
    CleanStack(st, Pow2(frag), table);
  }

  lemma HoldsOneLess(s: seq<Frag>, f: Frag, fs: set<Frag>)
    requires Holding(s + [f], fs)
    ensures f in fs && Holding(s, fs - {f})
  {
    assert f in multiset(s + [f]);
    assert multiset(fs) == multiset(fs - {f}) + multiset{f};
    assert multiset(s) == multiset(s + [f]) - multiset{f};
    assert multiset(fs - {f}) == multiset(fs) - multiset{f};
  }
}
