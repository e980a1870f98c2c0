/**
 Opening connections in the table uip_conns (contrib/dev/uip/uip.c): the search for an unused local port
 and the choice of a slot.
 */
module TcpOpen {
  import opened Bytes
  import opened Common
  import opened Tcp

  const FIRST_PORT: int := 4096
  const PORT_LIMIT: int := 32000

  /** A slot of uip_conns; ports are in network byte order. */
  datatype Slot = Slot(conn: Conn, lport: Word, rport: Word, ripaddr: (Word, Word))

  /** ++lastport, wrapping to 4096. */
  function NextPort(p: int): int {
    if p + 1 >= PORT_LIMIT then FIRST_PORT else p + 1
  }

  /** lastport in every state reachable from uip_init. */
  predicate ValidPort(p: int) { 1024 <= p < PORT_LIMIT }

  /** Is the port, in host byte order, the local port of a connection that is not closed? */
  predicate PortInUse(conns: seq<Slot>, p: Word) {
    exists i :: 0 <= i < |conns| && conns[i].conn.state != CLOSED && conns[i].lport == Swap16(p)
  }

  /** The ports of the open connections. */
  ghost function UsedPorts(conns: seq<Slot>): (s: set<Word>)
    ensures |s| <= |conns|
    ensures forall p: Word :: p in s <==> PortInUse(conns, p)
  {
    if conns == [] then {}
    else
      var last := |conns| - 1;
      var s := UsedPorts(conns[..last]);
      var c := conns[last];
      assert forall p: Word :: PortInUse(conns, p) <==>
        PortInUse(conns[..last], p) || (c.conn.state != CLOSED && c.lport == Swap16(p)) by {
        assert conns == conns[..last] + [c];
      }
      if c.conn.state == CLOSED then s
      else
        SwapInvolution(c.lport);
        s + {Swap16(c.lport)}
  }

  lemma SwapInvolution(w: Word)
    ensures Swap16(Swap16(w)) == w
    ensures forall p: Word :: Swap16(p) == w <==> p == Swap16(w)
  {
    forall p: Word ensures Swap16(p) == w <==> p == Swap16(w) {
      assert Lo(Swap16(p)) == Hi(p) && Hi(Swap16(p)) == Lo(p);
      assert p == 0x100 * Hi(p) + Lo(p) && w == 0x100 * Hi(w) + Lo(w);
      assert Swap16(w) == 0x100 * Lo(w) + Hi(w);
    }
  }

  /** Ports passed on the way from start to p, start excluded and p included. */
  predicate Passed(start: int, p: int, wrapped: bool, q: int) {
    if wrapped then start < q < PORT_LIMIT || FIRST_PORT <= q <= p else start < q <= p
  }

  /** How many steps of NextPort lead from start to p. */
  function StepsTo(start: int, p: int, wrapped: bool): int {
    if wrapped then PORT_LIMIT - 1 - start + (p - FIRST_PORT + 1) else p - start
  }

  /**
   The loop at label again. Among |conns| + 1 consecutive ports one is unused, because each of them can
   only be taken by a different connection; so the search ends after at most that many tries.
   */
  method FindPort(conns: seq<Slot>, lastport: int) returns (port: int, ghost tries: nat)
    requires ValidPort(lastport) && |conns| < PORT_LIMIT - FIRST_PORT
    ensures ValidPort(port) && !PortInUse(conns, port)
    ensures 1 <= tries <= |conns| + 1
  {
    port := NextPort(lastport);
    tries := 1;
    ghost var wrapped := lastport == PORT_LIMIT - 1;
    ghost var seen: set<Word> := {};
    while true
      invariant ValidPort(port) && ValidPort(lastport)
      invariant if wrapped then port >= FIRST_PORT else port > lastport
      invariant tries == |seen| + 1 == StepsTo(lastport, port, wrapped)
      invariant seen <= UsedPorts(conns)
      invariant forall q: Word :: q in seen ==> Passed(lastport, port, wrapped, q) && q != port
      invariant |seen| <= |conns|
      decreases |conns| - |seen|
    {
      var used := IsPortUsed(conns, port);
      if !used { return; }
      SubsetCard(seen + {port as Word}, UsedPorts(conns));
      seen := seen + {port};
      wrapped := wrapped || port + 1 >= PORT_LIMIT;
      port := NextPort(port);
      tries := tries + 1;
    }
  }

  lemma {:induction false} SubsetCard<T>(a: set<T>, b: set<T>)
    requires a <= b
    ensures |a| <= |b|
  {
    if a != {} {
      var x :| x in a;
      SubsetCard(a - {x}, b - {x});
    }
  }

  /** The inner loop over the table. */
  method IsPortUsed(conns: seq<Slot>, port: int) returns (used: bool)
    requires ValidPort(port)
    ensures used <==> PortInUse(conns, port)
  {
    for c := 0 to |conns|
      invariant forall i :: 0 <= i < c ==> !(conns[i].conn.state != CLOSED && conns[i].lport == Swap16(port))
    {
      if conns[c].conn.state != CLOSED && conns[c].lport == Swap16(port) { return true; }
    }
    return false;
  }

  // ----- Choosing a slot -----

  predicate InTimeWait(s: Slot) { s.conn.state == TIME_WAIT }

  /** Label found_listen: the first closed slot, otherwise the oldest one in TIME_WAIT. */
  method ListenSlot(conns: seq<Slot>) returns (r: Option<nat>)
    ensures r.None? <==> forall i :: 0 <= i < |conns| ==> conns[i].conn.state != CLOSED && !InTimeWait(conns[i])
    ensures r.Some? ==> r.value < |conns|
    ensures r.Some? && conns[r.value].conn.state == CLOSED ==>
      forall i :: 0 <= i < r.value ==> conns[i].conn.state != CLOSED
    ensures r.Some? && conns[r.value].conn.state != CLOSED ==>
      && InTimeWait(conns[r.value])
      && (forall i :: 0 <= i < |conns| ==> conns[i].conn.state != CLOSED)
      && (forall i :: 0 <= i < |conns| && InTimeWait(conns[i]) ==> conns[i].conn.timer <= conns[r.value].conn.timer)
      && (forall i :: 0 <= i < r.value && InTimeWait(conns[i]) ==> conns[i].conn.timer < conns[r.value].conn.timer)
  {
    r := None;
    for c := 0 to |conns|
      invariant forall i :: 0 <= i < c ==> conns[i].conn.state != CLOSED
      invariant r.None? ==> forall i :: 0 <= i < c ==> !InTimeWait(conns[i])
      invariant r.Some? ==> r.value < c && InTimeWait(conns[r.value])
      invariant r.Some? ==>
        forall i :: 0 <= i < c && InTimeWait(conns[i]) ==> conns[i].conn.timer <= conns[r.value].conn.timer
      invariant r.Some? ==>
        forall i :: 0 <= i < r.value && InTimeWait(conns[i]) ==> conns[i].conn.timer < conns[r.value].conn.timer
    {
      if conns[c].conn.state == CLOSED { return Some(c); }
      if InTimeWait(conns[c]) {
        if r.None? || conns[c].conn.timer > conns[r.value].conn.timer {
          r := Some(c);
        }
      }
    }
  }

  /** The slot of the last connection in TIME_WAIT whose timer is above t. */
  predicate LastAbove(conns: seq<Slot>, t: Byte, k: nat) {
    && k < |conns| && InTimeWait(conns[k]) && conns[k].conn.timer > t
    && forall i :: k < i < |conns| && InTimeWait(conns[i]) ==> conns[i].conn.timer <= t
  }

  predicate NoneAbove(conns: seq<Slot>, t: Byte) {
    forall i :: 0 <= i < |conns| && InTimeWait(conns[i]) ==> conns[i].conn.timer <= t
  }

  predicate FirstWaiting(conns: seq<Slot>, k: nat) {
    k < |conns| && InTimeWait(conns[k]) && forall i :: 0 <= i < k ==> !InTimeWait(conns[i])
  }

  predicate NoneClosed(conns: seq<Slot>) {
    forall i :: 0 <= i < |conns| ==> conns[i].conn.state != CLOSED
  }

  /** What uip_connect takes: the first closed slot, otherwise one in TIME_WAIT, if there is any. */
  predicate Takes(conns: seq<Slot>, currentTimer: Byte, r: Option<nat>) {
    match r
    case None => NoneClosed(conns) && forall i :: 0 <= i < |conns| ==> !InTimeWait(conns[i])
    case Some(k) =>
      && k < |conns|
      && if conns[k].conn.state == CLOSED then
           NoneClosed(conns[..k])
         else
           && NoneClosed(conns)
           && (LastAbove(conns, currentTimer, k) || (NoneAbove(conns, currentTimer) && FirstWaiting(conns, k)))
  }

  /** The slot has been in TIME_WAIT for as long as any other. */
  predicate Oldest(conns: seq<Slot>, k: nat) {
    && k < |conns| && InTimeWait(conns[k])
    && forall i :: 0 <= i < |conns| && InTimeWait(conns[i]) ==> conns[i].conn.timer <= conns[k].conn.timer
  }

  /**
   uip_connect recycles the oldest connection exactly if the last timer above that of the current connection
   is the largest, or, if none is above it, the first one.
   */
  lemma WhenOldestIsTaken(conns: seq<Slot>, currentTimer: Byte, k: nat)
    requires Takes(conns, currentTimer, Some(k)) && NoneClosed(conns)
    ensures Oldest(conns, k) <==>
      if NoneAbove(conns, currentTimer) then exists i: nat :: FirstWaiting(conns, i) && Oldest(conns, i)
      else exists i: nat :: LastAbove(conns, currentTimer, i) && Oldest(conns, i)
  {
    forall i: nat | FirstWaiting(conns, i) && FirstWaiting(conns, k) ensures i == k {
      assert !(i < k) && !(k < i);
    }
    forall i: nat | LastAbove(conns, currentTimer, i) && LastAbove(conns, currentTimer, k) ensures i == k {
      assert !(i < k) && !(k < i);
    }
  }

  /** Two connections in TIME_WAIT for 50 and 10 ticks: with 5 for the current connection the younger one goes. */
  lemma YoungerIsTaken(conns: seq<Slot>, r: Option<nat>)
    requires |conns| == 2 && InTimeWait(conns[0]) && InTimeWait(conns[1])
    requires conns[0].conn.timer == 50 && conns[1].conn.timer == 10 && Takes(conns, 5, r)
    ensures r == Some(1) && !Oldest(conns, 1) && Oldest(conns, 0)
  {
    assert conns[0].conn.timer > conns[1].conn.timer;
  }

  /**
   The slot search of uip_connect. It compares timers with the one of the connection that uip_process
   worked on last instead of the slot chosen so far.
   */
  method ConnectSlot(conns: seq<Slot>, currentTimer: Byte) returns (r: Option<nat>)
    ensures Takes(conns, currentTimer, r)
  {
    r := None;
    for c := 0 to |conns|
      invariant forall i :: 0 <= i < c ==> conns[i].conn.state != CLOSED
      invariant r.None? ==> forall i :: 0 <= i < c ==> !InTimeWait(conns[i])
      invariant r.Some? ==> r.value < c && InTimeWait(conns[r.value])
      invariant r.Some? ==> forall i :: r.value < i < c && InTimeWait(conns[i]) ==> conns[i].conn.timer <= currentTimer
      invariant r.Some? && conns[r.value].conn.timer <= currentTimer ==>
        forall i :: 0 <= i < r.value ==> !InTimeWait(conns[i])
    {
      if conns[c].conn.state == CLOSED { return Some(c); }
      if InTimeWait(conns[c]) {
        if r.None? || conns[c].conn.timer > currentTimer {
          r := Some(c);
        }
      }
    }
  }

  /** uip_connect: the new connection gets a port no open connection uses; other slots stay as they are. */
  method Connect(conns: array<Slot>, lastport: int, ripaddr: (Word, Word), rport: Word, iss: Seqno, mss: Word,
                 currentTimer: Byte)
    returns (r: Option<nat>, port: int)
    requires ValidPort(lastport) && conns.Length < PORT_LIMIT - FIRST_PORT
    modifies conns
    ensures ValidPort(port) && !PortInUse(old(conns[..]), port)
    ensures Takes(old(conns[..]), currentTimer, r)
    ensures r.None? ==> conns[..] == old(conns[..])
    ensures r.Some? ==>
      && r.value < conns.Length
      && conns[..] == old(conns[..])[r.value :=
        Slot(Connecting(old(conns[r.value].conn), iss, mss), Swap16(port), rport, ripaddr)]
      && (forall i :: 0 <= i < conns.Length && i != r.value && conns[i].conn.state != CLOSED ==>
        conns[i].lport != conns[r.value].lport)
  {
    ghost var tries;
    port, tries := FindPort(conns[..], lastport);
    r := ConnectSlot(conns[..], currentTimer);
    if r.Some? {
      conns[r.value] := Slot(Connecting(conns[r.value].conn, iss, mss), Swap16(port), rport, ripaddr);
    }
  }
}
