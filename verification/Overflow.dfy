/**
 A run that fills a fragment stack: a process takes all halves of some pages, one more page than its stack has
 entries, and gives back one half of each. Each list of events is what calls of pmalloc2 and freep record.
 */
module Overflow {
  import opened Bytes
  import opened Pages
  import opened FragStack
  import opened Heap
  import opened HeapSteps
  import opened Blocks
  import opened Leaks

  ghost predicate Different(ps: seq<nat>) { forall i, j :: 0 <= i < j < |ps| ==> ps[i] != ps[j] }

  function Zeros(n: nat): seq<Byte> { seq(n, _ => 0) }

  function Half(p: nat, idx: nat, o: nat): Block { Piece(p, idx, 1, o) }

  // ----- Taking both halves of a page -----

  /** Page p was free and now belongs to o, who has both halves. */
  function Halved(c: Config, s: State, p: nat, o: nat): State
    requires p < |s.pages| && p < |s.ram|
  {
    s.(pages := s.pages[p := Page(true, 1, false, o)], free := s.free - 1, stacks := s.stacks[(o, 1) := {}],
       live := s.live + {Half(p, 0, o), Half(p, 1, o)}, ram := s.ram[p := Zeros(c.PageSize())])
  }

  function HalvingEvents(p: nat, o: nat): seq<Event> {
    [AddedPage(p, 1, o), TookPiece(Half(p, 1, o)), TookPiece(Half(p, 0, o))]
  }

  lemma HalvesPage(c: Config, s: State, p: nat, o: nat) returns (run: seq<State>)
    requires Inv(c, s) && Unused(s.pages, p, 1) && s.StackOf(o, 1) == {}
    ensures IsRun(c, run, HalvingEvents(p, o)) && run[0] == s && run[3] == Halved(c, s, p, o)
  {
    assert Pow2(1) == 2 * Pow2(0) == 2;
    var a := s.(pages := s.pages[p := Page(true, 1, false, o)], free := s.free - 1,
                stacks := s.stacks[(o, 1) := PagePieces(p, 2)], ram := s.ram[p := Zeros(c.PageSize())]);
    var b := a.(live := a.live + {Half(p, 1, o)}, stacks := a.stacks[(o, 1) := a.StackOf(o, 1) - {Frag(p, 1)}]);
    var t := b.(live := b.live + {Half(p, 0, o)}, stacks := b.stacks[(o, 1) := b.StackOf(o, 1) - {Frag(p, 0)}]);
    forall q | 0 <= q < |s.ram| ensures ClearedPage(s.ram[q], a.ram[q], p <= q < p + 1) {
    }
    assert b.StackOf(o, 1) == {Frag(p, 0)} && t.StackOf(o, 1) == {};
    assert t.live == s.live + {Half(p, 0, o), Half(p, 1, o)};
    assert t.stacks == s.stacks[(o, 1) := {}];
    run := [s, a, b, t];
  }

  /** The lower half of the page is o's to give back, and zero. */
  ghost predicate Ready(c: Config, s: State, p: nat, o: nat) {
    Half(p, 0, o) in s.live && Half(p, 0, o) !in s.held && p < |s.ram| && s.ram[p] == Zeros(c.PageSize())
  }

  lemma NewHalfIsReady(c: Config, s: State, p: nat, o: nat)
    requires Inv(c, s) && Unused(s.pages, p, 1)
    ensures p < |s.ram| && Ready(c, Halved(c, s, p, o), p, o)
  {
    assert Half(p, 0, o) in s.live ==> LiveOk(c, s.pages, Half(p, 0, o));
  }

  lemma Joined(c: Config, run: seq<State>, events: seq<Event>, run': seq<State>, events': seq<Event>)
    requires IsRun(c, run, events) && IsRun(c, run', events') && run'[0] == run[|events|]
    ensures IsRun(c, run + run'[1..], events + events')
    ensures (run + run'[1..])[|events + events'|] == run'[|events'|] && (run + run'[1..])[0] == run[0]
  {
    var r, e := run + run'[1..], events + events';
    forall i | 0 <= i < |e| ensures Step(c, r[i], e[i], r[i + 1]) {
      if i < |events| {
        assert Step(c, run[i], events[i], run[i + 1]);
      } else {
        assert Step(c, run'[i - |events|], events'[i - |events|], run'[i - |events| + 1]);
      }
    }
  }

  /** Taking the halves of all these pages. */
  lemma {:induction false} HalvesAll(c: Config, s: State, ps: seq<nat>, o: nat)
    returns (run: seq<State>, events: seq<Event>)
    requires Inv(c, s) && Different(ps) && s.StackOf(o, 1) == {}
    requires forall i :: 0 <= i < |ps| ==> Unused(s.pages, ps[i], 1)
    ensures IsRun(c, run, events) && run[0] == s
    ensures var t := run[|events|];
      && Inv(c, t) && t.StackOf(o, 1) == {} && |t.pages| == |s.pages|
      && (forall q :: 0 <= q < |s.pages| && q !in ps ==> t.pages[q] == s.pages[q])
      && forall i :: 0 <= i < |ps| ==> Ready(c, t, ps[i], o)
  {
    if ps == [] {
      run, events := [s], [];
    } else {
      var last := |ps| - 1;
      run, events := HalvesAll(c, s, ps[..last], o);
      var t, p := run[|events|], ps[last];
      assert p !in ps[..last] && Unused(t.pages, p, 1) && Unused(s.pages, p, 1);
      var run' := HalvesPage(c, t, p, o);
      NewHalfIsReady(c, t, p, o);
      RunKeepsInv(c, run', HalvingEvents(p, o), 3);
      Joined(c, run, events, run', HalvingEvents(p, o));
      run, events := run + run'[1..], events + HalvingEvents(p, o);
      forall i | 0 <= i < |ps| ensures Ready(c, Halved(c, t, p, o), ps[i], o) {
        if i < last { assert Ready(c, t, ps[..last][i], o) && ps[..last][i] != p; }
      }
    }
  }

  // ----- Giving back one half of each -----

  /** The lower halves of the first n pages. */
  ghost function LowerHalves(ps: seq<nat>, n: nat): (r: set<Frag>)
    requires n <= |ps|
    ensures forall f :: f in r <==> f.idx == 0 && f.page in ps[..n]
    ensures Different(ps) ==> |r| == n
  {
    if n == 0 then {}
    else
      assert ps[..n] == ps[..n - 1] + [ps[n - 1]];
      LowerHalves(ps, n - 1) + {Frag(ps[n - 1], 0)}
  }

  lemma NoneIsFull(ps: seq<nat>, n: nat)
    requires n <= |ps|
    ensures FullPages(LowerHalves(ps, n), Pow2(1)) == {} && OffPages(LowerHalves(ps, n), {}) == LowerHalves(ps, n)
  {
    assert Pow2(1) == 2 * Pow2(0) == 2;
    var full := FullPages(LowerHalves(ps, n), 2);
    assert forall p :: p in full ==> Frag(p, 1) in LowerHalves(ps, n);
  }

  /** What freep of the lower half records. */
  function FreeingEvents(p: nat, o: nat, pushed: bool): seq<Event> {
    [CleanedStack(1, o), DroppedPiece(Half(p, 0, o), pushed)]
  }

  function Freed(s: State, p: nat, o: nat, pushed: bool): State {
    s.(live := s.live - {Half(p, 0, o)},
       stacks := s.stacks[(o, 1) := s.StackOf(o, 1) + if pushed then {Frag(p, 0)} else {}])
  }

  /** The cleanup finds no full page. */
  function Cleaned(s: State, o: nat): State { s.(stacks := s.stacks[(o, 1) := s.StackOf(o, 1)]) }

  lemma CleansNothing(c: Config, s: State, ps: seq<nat>, n: nat, o: nat)
    requires n <= |ps| && s.StackOf(o, 1) == LowerHalves(ps, n)
    ensures Step(c, s, CleanedStack(1, o), Cleaned(s, o))
  {
    NoneIsFull(ps, n);
    forall q | 0 <= q < |s.pages| ensures FreedAt(s.pages, s.pages, {}, q) {
    }
  }

  lemma DropsHalf(c: Config, s: State, p: nat, o: nat, pushed: bool)
    requires Ready(c, s, p, o)
    ensures Step(c, s, DroppedPiece(Half(p, 0, o), pushed), Freed(s, p, o, pushed))
  {
    forall q | 0 <= q < |s.ram| ensures ZeroIn(c, s.ram[q], Half(p, 0, o), q) {
    }
    forall q | 0 <= q < |s.ram| ensures RowChangedWithin(c, s.ram[q], s.ram[q], Half(p, 0, o), q) {
    }
  }

  lemma CleanedFirst(s: State, p: nat, o: nat, pushed: bool)
    ensures Freed(Cleaned(s, o), p, o, pushed) == Freed(s, p, o, pushed)
  {
    var more := s.StackOf(o, 1) + if pushed then {Frag(p, 0)} else {};
    assert s.stacks[(o, 1) := s.StackOf(o, 1)][(o, 1) := more] == s.stacks[(o, 1) := more];
  }

  lemma TwoSteps(c: Config, a: State, e: Event, b: State, f: Event, d: State) returns (run: seq<State>)
    requires Step(c, a, e, b) && Step(c, b, f, d)
    ensures IsRun(c, run, [e, f]) && run == [a, b, d]
  {
    run := [a, b, d];
  }

  lemma FreesHalf(c: Config, s: State, ps: seq<nat>, n: nat, p: nat, o: nat, pushed: bool) returns (run: seq<State>)
    requires n <= |ps| && s.StackOf(o, 1) == LowerHalves(ps, n) && Ready(c, s, p, o)
    ensures IsRun(c, run, FreeingEvents(p, o, pushed)) && run[0] == s && run[2] == Freed(s, p, o, pushed)
  {
    CleansNothing(c, s, ps, n, o);
    DropsHalf(c, Cleaned(s, o), p, o, pushed);
    CleanedFirst(s, p, o, pushed);
    run := TwoSteps(c, s, CleanedStack(1, o), Cleaned(s, o),
                    DroppedPiece(Half(p, 0, o), pushed), Freed(s, p, o, pushed));
  }

  /** Giving back the lower halves of the first n pages, after some other run. */
  lemma {:induction false} FreesHalves(c: Config, run0: seq<State>, events0: seq<Event>, ps: seq<nat>, o: nat, n: nat)
    returns (run: seq<State>, events: seq<Event>)
    requires IsRun(c, run0, events0) && Different(ps) && n <= |ps|
    requires var t := run0[|events0|];
      Inv(c, t) && t.StackOf(o, 1) == {} && forall i :: 0 <= i < |ps| ==> Ready(c, t, ps[i], o)
    ensures IsRun(c, run, events) && run[0] == run0[0]
    ensures var u := run[|events|];
      Inv(c, u) && u.StackOf(o, 1) == LowerHalves(ps, n) && forall i :: n <= i < |ps| ==> Ready(c, u, ps[i], o)
  {
    run, events := run0, events0;
    if n > 0 {
      run, events := FreesHalves(c, run0, events0, ps, o, n - 1);
      var t, p := run[|events|], ps[n - 1];
      var run' := FreesHalf(c, t, ps, n - 1, p, o, true);
      RunKeepsInv(c, run', FreeingEvents(p, o, true), 2);
      Joined(c, run, events, run', FreeingEvents(p, o, true));
      run, events := run + run'[1..], events + FreeingEvents(p, o, true);
      forall i | n <= i < |ps| ensures Ready(c, Freed(t, p, o, true), ps[i], o) {
        assert Ready(c, t, ps[i], o) && ps[n - 1] != ps[i];
      }
    }
  }

  /**
   From any state, such as that after mem_init, with one more free page than the process's stack of halves has
   entries: a run leads to a full stack, and the last half that is given back is lost.
   */
  lemma StackOverflows(c: Config, s: State, ps: seq<nat>, o: nat) returns (run: seq<State>, events: seq<Event>)
    requires Inv(c, s) && s.StackOf(o, 1) == {} && |ps| == StackCapacity(c) + 1
    requires Different(ps) && forall i :: 0 <= i < |ps| ==> Unused(s.pages, ps[i], 1)
    ensures IsRun(c, run, events) && |events| >= 2 && run[0] == s
    ensures var n, p := |events|, ps[|ps| - 1];
      && events[n - 2..] == FreeingEvents(p, o, false) && !HasRoom(c, run[n - 2], 1, o) && Lost(run[n], p, 0, 1, o)
  {
    var p, cap := ps[|ps| - 1], StackCapacity(c);
    run, events := HalvesAll(c, s, ps, o);
    run, events := FreesHalves(c, run, events, ps, o, cap);
    var t := run[|events|];
    NoneIsFull(ps, cap);
    var run' := FreesHalf(c, t, ps, cap, p, o, false);
    RunKeepsInv(c, run', FreeingEvents(p, o, false), 1);
    assert Step(c, run'[1], DroppedPiece(Half(p, 0, o), false), run'[2]);
    OverflowLeaks(c, run'[1], Half(p, 0, o), run'[2]);
    Joined(c, run, events, run', FreeingEvents(p, o, false));
    run, events := run + run'[1..], events + FreeingEvents(p, o, false);
  }
}
