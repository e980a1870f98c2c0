/**
 The state diagram of the TCP machine, its invariant, and the exact number of timer ticks after which a
 silent connection is closed (contrib/dev/uip/uip.c).
 */
module TcpMachine {
  import opened Bytes
  import opened Tcp

  // ----- The diagram of section 3.2 of RFC 793 -----

  /**
   One arrow of the diagram. CLOSE_WAIT is merged into LAST_ACK because the host closes at once; a reset,
   a timeout and an abort lead to CLOSED from everywhere. FIN_WAIT_1 to TIME_WAIT is the arrival of a FIN
   together with the acknowledgement of our own.
   */
  predicate Arrow(s: State, t: State) {
    match s
    case CLOSED => false
    case SYN_SENT => t == ESTABLISHED || t == CLOSED
    case SYN_RCVD => t == ESTABLISHED || t == CLOSED
    case ESTABLISHED => t == FIN_WAIT_1 || t == LAST_ACK || t == CLOSED
    case FIN_WAIT_1 => t == FIN_WAIT_2 || t == CLOSING || t == TIME_WAIT || t == CLOSED
    case FIN_WAIT_2 => t == TIME_WAIT || t == CLOSED
    case CLOSING => t == TIME_WAIT || t == CLOSED
    case LAST_ACK => t == CLOSED
    case TIME_WAIT => t == CLOSED
  }

  /** The states assigned one after the other during a call follow the arrows and end in the new state. */
  predicate FollowsArrows(s: State, path: seq<State>, t: State)
    decreases |path|
  {
    if path == [] then s == t else Arrow(s, path[0]) && FollowsArrows(path[0], path[1..], t)
  }

  /** What every open connection satisfies: a SYN or FIN is the only thing outstanding in its states. */
  ghost predicate Inv(c: Conn) {
    && (c.stopped ==> c.state == ESTABLISHED)
    && (c.state in {SYN_SENT, SYN_RCVD, FIN_WAIT_1, CLOSING, LAST_ACK} ==> c.len == 1)
    && c.nrtx <= MAXRTX
  }

  lemma FreshInv(c: Conn, irs: Seqno, iss: Seqno, mss: Word)
    ensures Inv(Accepted(irs, iss, mss)) && Inv(Connecting(c, iss, mss))
  {
  }

  /** The outcome of a call on a connection in state s keeps the invariant and follows the diagram. */
  ghost predicate Good(s: State, o: Outcome) {
    Inv(o.conn) && |o.path| <= 2 && FollowsArrows(s, o.path, o.conn.state)
  }

  lemma {:induction false} ShortPaths(s: State, path: seq<State>, t: State)
    ensures path == [] ==> (FollowsArrows(s, path, t) <==> s == t)
    ensures |path| == 1 ==> (FollowsArrows(s, path, t) <==> Arrow(s, path[0]) && path[0] == t)
    ensures |path| == 2 ==>
      (FollowsArrows(s, path, t) <==> Arrow(s, path[0]) && Arrow(path[0], path[1]) && path[1] == t)
    decreases |path|
  {
    if |path| == 1 { assert path[1..] == []; }
    if |path| == 2 { ShortPaths(path[0], path[1..], t); }
  }

  /** After the callback on an established connection the machine is there, closing or closed. */
  lemma SendKeepsInv(s: State, c: Conn, e: Event, app: App, path: seq<State>, delivered: seq<Byte>)
    requires c.state == ESTABLISHED && c.nrtx <= MAXRTX
    requires (path == [] && s == ESTABLISHED) || (path == [ESTABLISHED] && Arrow(s, ESTABLISHED))
    ensures Good(s, CallAndSend(c, e, app, path, delivered))
  {
    var o := CallAndSend(c, e, app, path, delivered);
    ShortPaths(s, o.path, o.conn.state);
  }

  lemma InputKeepsInv(c: Conn, s: Segment, app: App, e: Estimate)
    requires Inv(c) && c.state != CLOSED
    ensures Good(c.state, Input(c, s, app, e))
  {
    var o := Input(c, s, app, e);
    ShortPaths(c.state, o.path, o.conn.state);
    var c1, acked := TakeAck(c, s, e), Acknowledges(c, s);
    if c.state == SYN_RCVD {
      var c2 := c1.(state := ESTABLISHED, stopped := false, len := 0, rcvNxt := Plus(c1.rcvNxt, |s.data|));
      SendKeepsInv(SYN_RCVD, c2, Event(false, s.data != [], false, false), app, [ESTABLISHED], s.data);
    } else if c.state == SYN_SENT {
      var c2 := c1.(state := ESTABLISHED, stopped := false, len := 0, rcvNxt := Plus(s.seqno, 1));
      SendKeepsInv(SYN_SENT, c2, Event(false, true, false, false), app, [ESTABLISHED], []);
    } else if c.state == ESTABLISHED {
      EstablishedKeepsInv(c1, s, acked, app);
    }
  }

  lemma EstablishedKeepsInv(c: Conn, s: Segment, acked: bool, app: App)
    requires Inv(c) && c.state == ESTABLISHED
    ensures Good(ESTABLISHED, InEstablished(c, s, acked, app))
  {
    var o := InEstablished(c, s, acked, app);
    ShortPaths(ESTABLISHED, o.path, o.conn.state);
    if !s.flags.fin {
      var data := if c.stopped then [] else s.data;
      var mss := if s.wnd > c.initialmss || s.wnd == 0 then c.initialmss else s.wnd;
      var c1 := c.(rcvNxt := Plus(c.rcvNxt, |data|), mss := mss);
      SendKeepsInv(ESTABLISHED, c1, Event(acked, data != [], false, false), app, [], data);
    }
  }

  lemma TickKeepsInv(c: Conn, app: App)
    requires Inv(c)
    ensures Good(c.state, Tick(c, app))
  {
    var o := Tick(c, app);
    ShortPaths(c.state, o.path, o.conn.state);
    if c.state == ESTABLISHED { SendKeepsInv(ESTABLISHED, c, Event(false, false, false, false), app, [], []); }
  }

  /** Every call keeps the invariant and moves along arrows, at most two of them. */
  lemma StepKeepsInv(c: Conn, i: Stimulus)
    requires Inv(c)
    ensures Good(c.state, Step(c, i))
  {
    match i
    case Arrives(s, app, e) =>
      if c.state == CLOSED { ShortPaths(CLOSED, [], CLOSED); } else { InputKeepsInv(c, s, app, e); }
    case Ticks(app) => TickKeepsInv(c, app);
  }

  lemma {:induction false} RunKeepsInv(v: View, inputs: seq<Stimulus>)
    requires Inv(v.conn)
    ensures Inv(Run(v, inputs).conn)
  {
    if inputs != [] {
      var last := |inputs| - 1;
      RunKeepsInv(v, inputs[..last]);
      StepKeepsInv(Run(v, inputs[..last]).conn, inputs[last]);
    }
  }

  // ----- Bounded close -----

  /** Is the connection waiting for something that the timer watches over? */
  predicate Watched(c: Conn) {
    c.state == TIME_WAIT || c.state == FIN_WAIT_2 || (c.state != CLOSED && c.len != 0)
  }

  /** Ticks until a connection with outstanding data gives up, from its timer and retransmission count. */
  function TicksLeft(syn: bool, timer: Byte, nrtx: nat): (n: nat)
    requires nrtx <= MAXRTX
    ensures n >= 1
    decreases MAXRTX - nrtx
  {
    if nrtx == MAXRTX || (syn && nrtx == MAXSYNRTX) then timer + 1
    else timer as int + 1 + TicksLeft(syn, Backoff(nrtx), nrtx + 1)
  }

  /** The exact number of ticks to CLOSED when nothing arrives. */
  function TicksToClose(c: Conn): (n: nat)
    requires Inv(c) && Watched(c)
  {
    if c.state == TIME_WAIT || c.state == FIN_WAIT_2 then
      if c.timer < TIME_WAIT_TIMEOUT then TIME_WAIT_TIMEOUT - c.timer else TIME_WAIT_TIMEOUT + 0x100 - c.timer
    else TicksLeft(c.state == SYN_SENT || c.state == SYN_RCVD, c.timer, c.nrtx)
  }

  ghost predicate OnlyTicks(inputs: seq<Stimulus>) {
    forall i :: 0 <= i < |inputs| ==> inputs[i].Ticks?
  }

  /** A tick closes the connection or brings it exactly one tick closer to being closed. */
  lemma TickCountsDown(c: Conn, app: App)
    requires Inv(c) && Watched(c)
    ensures var c' := Tick(c, app).conn;
      if TicksToClose(c) == 1 then c'.state == CLOSED
      else c'.state == c.state && Watched(c') && Inv(c') && TicksToClose(c') == TicksToClose(c) - 1
  {
    StepKeepsInv(c, Ticks(app));
  }

  /** With ticks only, a watched connection is closed exactly from tick TicksToClose on. */
  lemma {:induction false} ClosesExactlyThen(v: View, inputs: seq<Stimulus>)
    requires Inv(v.conn) && Watched(v.conn) && OnlyTicks(inputs)
    ensures var d := Run(v, inputs).conn;
      && (d.state == CLOSED <==> |inputs| >= TicksToClose(v.conn))
      && (d.state != CLOSED ==> Inv(d) && Watched(d) && TicksToClose(d) == TicksToClose(v.conn) - |inputs|)
  {
    if inputs != [] {
      var last := |inputs| - 1;
      ClosesExactlyThen(v, inputs[..last]);
      var d := Run(v, inputs[..last]).conn;
      if d.state != CLOSED { TickCountsDown(d, inputs[last].app); }
    }
  }

  lemma TicksLeftBound(syn: bool, timer: Byte, nrtx: nat)
    requires nrtx <= MAXRTX
    ensures TicksLeft(syn, timer, nrtx) <= timer as int + 246
    ensures nrtx == 0 && !syn ==> TicksLeft(syn, timer, nrtx) == timer as int + 246
    ensures nrtx == 0 && syn ==> TicksLeft(syn, timer, nrtx) == timer as int + 25
  {
    assert TicksLeft(syn, Backoff(7), 8) == 49;
    assert TicksLeft(syn, Backoff(6), 7) <= 98 && TicksLeft(false, Backoff(6), 7) == 98;
    assert TicksLeft(syn, Backoff(5), 6) <= 147 && TicksLeft(false, Backoff(5), 6) == 147;
    assert TicksLeft(syn, Backoff(4), 5) <= 196 && TicksLeft(false, Backoff(4), 5) == 196;
    assert TicksLeft(syn, Backoff(3), 4) <= 221 && TicksLeft(false, Backoff(3), 4) == 221;
    assert TicksLeft(false, Backoff(2), 3) == 234 && TicksLeft(true, Backoff(2), 3) == 13;
    assert TicksLeft(false, Backoff(1), 2) == 241 && TicksLeft(true, Backoff(1), 2) == 20;
    assert TicksLeft(false, Backoff(0), 1) == 245 && TicksLeft(true, Backoff(0), 1) == 24;
  }

  /** Whatever happened before: after 501 ticks in a row a watched connection is closed. */
  lemma {:induction false} BoundedClose(v: View, before: seq<Stimulus>, ticks: seq<Stimulus>)
    requires Inv(v.conn) && Watched(Run(v, before).conn) && OnlyTicks(ticks) && |ticks| >= 501
    ensures Run(Run(v, before), ticks).conn.state == CLOSED
  {
    RunKeepsInv(v, before);
    var c := Run(v, before).conn;
    TicksLeftBound(c.state == SYN_SENT || c.state == SYN_RCVD, c.timer, c.nrtx);
    ClosesExactlyThen(Run(v, before), ticks);
  }
}
