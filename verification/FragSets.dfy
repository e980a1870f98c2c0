/**
 Fragment stacks and sets of fragments: what mem_frag_clean_stack computes from counts and orders is what
 it should do to the set of free fragments.
 */
module FragSets {
  import opened Pages
  import opened FragStack
  import opened HeapSteps

  /** The stack holds exactly these fragments, each once. */
  ghost predicate Holding(s: seq<Frag>, fs: set<Frag>) {
    multiset(s) == multiset(fs)
  }

  lemma {:induction false} PagePiecesCount(page: nat, n: nat)
    ensures |PagePieces(page, n)| == n
  {
    if n > 0 {
      PagePiecesCount(page, n - 1);
      assert PagePieces(page, n) == PagePieces(page, n - 1) + {Frag(page, n - 1)};
    }
  }

  ghost function OnPage(fs: set<Frag>, pg: nat): set<Frag> {
    set f | f in fs && f.page == pg
  }

  lemma CountIsCardinality(s: seq<Frag>, fs: set<Frag>, pg: nat)
    requires Holding(s, fs)
    ensures Count(s, pg) == |OnPage(fs, pg)|
  {
    assert s[..|s|] == s;
    forall x: Frag ensures multiset(Only(s, |s|, pg))[x] == multiset(OnPage(fs, pg))[x] {
      OnlyMultiset(s, |s|, pg, x);
    }
    assert multiset(Only(s, |s|, pg)) == multiset(OnPage(fs, pg));
    assert |multiset(Only(s, |s|, pg))| == Count(s, pg);
    assert |multiset(OnPage(fs, pg))| == |OnPage(fs, pg)|;
  }

  /** A page has n entries exactly if all of its n pieces are on the stack. */
  lemma CountsAllPieces(s: seq<Frag>, fs: set<Frag>, pg: nat, n: nat)
    requires Holding(s, fs) && forall f :: f in fs ==> f.idx < n
    ensures Count(s, pg) == n <==> PagePieces(pg, n) <= fs
  {
    var here, pieces := OnPage(fs, pg), PagePieces(pg, n);
    CountIsCardinality(s, fs, pg);
    PagePiecesCount(pg, n);
    assert here <= pieces;
    if |here| == n { SameSize(here, pieces); }
    if pieces <= fs { assert here == pieces; }
  }

  lemma {:induction false} SameSize<T>(a: set<T>, b: set<T>)
    requires a <= b && |a| == |b|
    ensures a == b
  {
    assert b == a + (b - a);
  }

  /** The pages found by counting are the pages all of whose pieces are free. */
  lemma CompleteIsFull(s: seq<Frag>, fs: set<Frag>, n: nat)
    requires Holding(s, fs) && n >= 1 && forall f :: f in fs ==> f.idx < n
    ensures Complete(s, n) == FullPages(fs, n)
  {
    forall pg: nat ensures pg in Complete(s, n) <==> pg in FullPages(fs, n) {
      CompleteMember(s, |s|, n, pg);
      CountsAllPieces(s, fs, pg, n);
      if PagePieces(pg, n) <= fs {
        assert Frag(pg, 0) in PagePieces(pg, n);
        assert Frag(pg, 0) in multiset(s);
      }
    }
  }

  lemma WithoutIsOffPages(s: seq<Frag>, fs: set<Frag>, pgs: set<nat>)
    requires Holding(s, fs)
    ensures Holding(Without(s, pgs), OffPages(fs, pgs))
  {
    assert s[..|s|] == s;
    forall x: Frag ensures multiset(Without(s, pgs))[x] == multiset(OffPages(fs, pgs))[x] {
      KeptMultiset(s, |s|, pgs, x);
    }
  }
}
