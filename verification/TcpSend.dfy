/**
 The sending side of the TCP machine (contrib/dev/uip/uip.c; section 3.7 of RFC 793): what an acknowledgement
 moves, what is sent and how much of it, and what answers a segment.
 */
module TcpSend {
  import opened Bytes
  import opened Tcp
  import opened TcpMachine

  // ----- What is acknowledged -----

  /** A segment that is looked at: no reset, and data only at the expected number. */
  predicate LookedAt(c: Conn, s: Segment) {
    c.state != CLOSED && !s.flags.rst && (s.data == [] || s.seqno == c.rcvNxt)
  }

  /** The number acknowledges everything outstanding and nothing else. */
  predicate AcksAll(c: Conn, i: Stimulus) {
    && i.Arrives? && LookedAt(c, i.segment) && i.segment.flags.ack
    && c.len != 0 && i.segment.ackno == (c.sndNxt + c.len) % TWO32
  }

  lemma StateKeepsNumber(c: Conn, s: Segment, acked: bool, app: App)
    ensures InState(c, s, acked, app).conn.sndNxt == c.sndNxt
  {
  }

  lemma TickKeepsNumber(c: Conn, app: App)
    ensures Tick(c, app).conn.sndNxt == c.sndNxt
  {
  }

  lemma AckMovesNumber(c: Conn, s: Segment, e: Estimate)
    ensures TakeAck(c, s, e).sndNxt ==
      if s.flags.ack && c.len != 0 && s.ackno == (c.sndNxt + c.len) % TWO32 then s.ackno else c.sndNxt
  {
    WrapIsModulo(c.sndNxt + c.len);
  }

  /** snd_nxt moves exactly for such a segment, and then to its number. */
  lemma WhenSndNxtMoves(c: Conn, i: Stimulus)
    ensures var d := Step(c, i).conn;
      && (d.sndNxt != c.sndNxt <==> AcksAll(c, i))
      && (AcksAll(c, i) ==> d.sndNxt == i.segment.ackno == (c.sndNxt + c.len) % TWO32)
  {
    match i
    case Ticks(app) => TickKeepsNumber(c, app);
    case Arrives(s, app, e) =>
      AckMovesNumber(c, s, e);
      StateKeepsNumber(TakeAck(c, s, e), s, Acknowledges(c, s), app);
  }

  /** The code's test is this one. */
  lemma AcksAllMeans(c: Conn, s: Segment, app: App, e: Estimate)
    ensures AcksAll(c, Arrives(s, app, e)) <==> LookedAt(c, s) && Acknowledges(c, s)
  {
    WrapIsModulo(c.sndNxt + c.len);
  }

  /** The bytes, SYNs and FINs that have been acknowledged in a run. */
  function AckedIn(v: View, inputs: seq<Stimulus>): nat {
    if inputs == [] then 0
    else
      var last := |inputs| - 1;
      var c := Run(v, inputs[..last]).conn;
      AckedIn(v, inputs[..last]) + if AcksAll(c, inputs[last]) then c.len else 0
  }

  /** One more stimulus after a run. */
  lemma OneMore(v: View, inputs: seq<Stimulus>, w: View, i: Stimulus)
    requires inputs != [] && w == Run(v, inputs[..|inputs| - 1]) && i == inputs[|inputs| - 1]
    ensures Run(v, inputs) == Advance(w, i)
    ensures AckedIn(v, inputs) == AckedIn(v, inputs[..|inputs| - 1]) + if AcksAll(w.conn, i) then w.conn.len else 0
  {
  }

  /** The number n sequence numbers behind start, with k turns of the number space. */
  predicate Turned(start: Seqno, n: nat, now: Seqno, k: nat) { start + n == now + TWO32 * k }

  lemma TurnedIsModulo(start: Seqno, n: nat, now: Seqno, k: nat)
    requires Turned(start, n, now, k)
    ensures now == (start + n) % TWO32
  {
  }

  lemma AckStep(w: View, i: Stimulus, start: Seqno, acked: nat, k: nat) returns (k': nat)
    requires Turned(start, acked, w.conn.sndNxt, k)
    ensures Turned(start, acked + if AcksAll(w.conn, i) then w.conn.len else 0, Advance(w, i).conn.sndNxt, k')
  {
    WhenSndNxtMoves(w.conn, i);
    k' := if AcksAll(w.conn, i) && w.conn.sndNxt + w.conn.len >= TWO32 then k + 1 else k;
  }

  lemma {:induction false} AckTurns(v: View, inputs: seq<Stimulus>) returns (k: nat)
    ensures Turned(v.conn.sndNxt, AckedIn(v, inputs), Run(v, inputs).conn.sndNxt, k)
  {
    k := 0;
    if inputs != [] {
      var before, i := inputs[..|inputs| - 1], inputs[|inputs| - 1];
      k := AckTurns(v, before);
      OneMore(v, inputs, Run(v, before), i);
      k := AckStep(Run(v, before), i, v.conn.sndNxt, AckedIn(v, before), k);
    }
  }

  /** snd_nxt is where it was at the start plus everything that has been acknowledged since. */
  lemma SndNxtCountsAcks(v: View, inputs: seq<Stimulus>, w: View, acked: nat)
    requires w == Run(v, inputs) && acked == AckedIn(v, inputs)
    ensures w.conn.sndNxt == (v.conn.sndNxt + acked) % TWO32
  {
    var k := AckTurns(v, inputs);
    TurnedIsModulo(v.conn.sndNxt, acked, w.conn.sndNxt, k);
  }

  /** Without a segment that acknowledges everything outstanding nothing has been, and snd_nxt has not moved. */
  lemma {:induction false} NothingAcked(v: View, inputs: seq<Stimulus>, w: View)
    requires w == Run(v, inputs)
    requires forall k :: 0 <= k < |inputs| ==> !AcksAll(Run(v, inputs[..k]).conn, inputs[k])
    ensures AckedIn(v, inputs) == 0 && w.conn.sndNxt == v.conn.sndNxt
  {
    if inputs != [] {
      var before, i := inputs[..|inputs| - 1], inputs[|inputs| - 1];
      forall k | 0 <= k < |before| ensures !AcksAll(Run(v, before[..k]).conn, before[k]) {
        assert before[..k] == inputs[..k];
      }
      NothingAcked(v, before, Run(v, before));
      OneMore(v, inputs, Run(v, before), i);
      WhenSndNxtMoves(Run(v, before).conn, i);
    }
  }

  // ----- What is sent -----

  /** Data are in flight, and the stimulus does not acknowledge them. */
  predicate InFlight(c: Conn, i: Stimulus) {
    c.state == ESTABLISHED && c.len != 0 && !AcksAll(c, i)
  }

  /** The timer calls on the application to send again what is in flight. */
  predicate AsksAgain(c: Conn, i: Stimulus) {
    i.Ticks? && c.state == ESTABLISHED && c.len != 0 && c.timer == 0 && c.nrtx < MAXRTX
  }

  /** The application is called and may send. */
  predicate MaySend(c: Conn, i: Stimulus) {
    match i
    case Ticks(_) => c.state == ESTABLISHED && c.len == 0
    case Arrives(s, _, _) =>
      && LookedAt(c, s)
      && match c.state
         case SYN_RCVD => AcksAll(c, i)
         case SYN_SENT => AcksAll(c, i) && s.flags == SYNACK
         case ESTABLISHED => !s.flags.fin && (AcksAll(c, i) || (s.data != [] && !c.stopped))
         case _ => false
  }

  /** How much a packet with data carries: what is in flight, otherwise what the application has, up to mss. */
  function Share(c: Conn, i: Stimulus, mss: nat): nat {
    if InFlight(c, i) then c.len else if i.app.slen < mss then i.app.slen else mss
  }

  lemma CallSends(c: Conn, e: Event, app: App, path: seq<State>, shown: seq<Byte>)
    requires c.state == ESTABLISHED && !e.close && !e.abort
    ensures var o := CallAndSend(c, e, app, path, shown);
      && o.conn.mss == c.mss && o.conn.initialmss == c.initialmss
      && (o.conn.state == ESTABLISHED <==> !app.close && !app.abort)
      && (o.conn.state == ESTABLISHED ==>
            o.conn.len == if app.slen == 0 then 0 else if c.len != 0 && !e.ackdata then c.len
                          else if app.slen < c.mss then app.slen else c.mss)
      && (o.reply.SendData? <==> o.conn.state == ESTABLISHED && o.conn.len > 0)
      && (o.reply.SendData? ==> o.reply.len == o.conn.len)
  {
  }

  /** How an established connection goes on after a stimulus: what it has outstanding and what it sends. */
  ghost predicate SendsShare(c: Conn, i: Stimulus, o: Outcome) {
    && (o.reply.SendData? <==>
          && i.app.slen > 0 && (AsksAgain(c, i) || (MaySend(c, i) && !i.app.close && !i.app.abort))
          && Share(c, i, o.conn.mss) > 0)
    && (o.reply.SendData? ==>
          o.conn.state == ESTABLISHED && o.reply.len == o.conn.len == Share(c, i, o.conn.mss))
  }

  lemma TickSends(c: Conn, app: App)
    requires Inv(c)
    ensures SendsShare(c, Ticks(app), Tick(c, app))
  {
    if c.state == ESTABLISHED && c.len == 0 { CallSends(c, Event(false, false, false, false), app, [], []); }
  }

  lemma OpeningSends(c: Conn, s: Segment, app: App, e: Estimate)
    requires Inv(c) && LookedAt(c, s) && (c.state == SYN_RCVD || c.state == SYN_SENT)
    ensures SendsShare(c, Arrives(s, app, e), Input(c, s, app, e))
  {
    AcksAllMeans(c, s, app, e);
    var c1 := TakeAck(c, s, e);
    if c.state == SYN_RCVD {
      var c2 := c1.(state := ESTABLISHED, stopped := false, len := 0, rcvNxt := Plus(c1.rcvNxt, |s.data|));
      CallSends(c2, Event(false, s.data != [], false, false), app, [ESTABLISHED], s.data);
    } else {
      var c2 := c1.(state := ESTABLISHED, stopped := false, len := 0, rcvNxt := Plus(s.seqno, 1));
      CallSends(c2, Event(false, true, false, false), app, [ESTABLISHED], []);
    }
  }

  lemma EstablishedSends(c: Conn, s: Segment, app: App, e: Estimate)
    requires Inv(c) && LookedAt(c, s) && c.state == ESTABLISHED
    ensures SendsShare(c, Arrives(s, app, e), Input(c, s, app, e))
  {
    AcksAllMeans(c, s, app, e);
    var c1, acked := TakeAck(c, s, e), Acknowledges(c, s);
    if !s.flags.fin {
      var data := if c.stopped then [] else s.data;
      var mss := if s.wnd > c.initialmss || s.wnd == 0 then c.initialmss else s.wnd;
      var c2 := c1.(rcvNxt := Plus(c1.rcvNxt, |data|), mss := mss);
      CallSends(c2, Event(acked, data != [], false, false), app, [], data);
    }
  }

  /**
   When a packet with data leaves, and how much it carries: never more than mss of new data, and only data in
   flight as long as there are any.
   */
  lemma WhenDataAreSent(c: Conn, i: Stimulus)
    requires Inv(c)
    ensures SendsShare(c, i, Step(c, i))
  {
    match i
    case Ticks(app) => TickSends(c, app);
    case Arrives(s, app, e) =>
      if LookedAt(c, s) {
        if c.state == SYN_RCVD || c.state == SYN_SENT { OpeningSends(c, s, app, e); }
        if c.state == ESTABLISHED { EstablishedSends(c, s, app, e); }
      }
  }

  function WindowMss(c: Conn, s: Segment): Word {
    if 0 < s.wnd < c.initialmss then s.wnd else c.initialmss
  }

  lemma CallKeepsMss(c: Conn, e: Event, app: App, path: seq<State>, shown: seq<Byte>)
    ensures var d := CallAndSend(c, e, app, path, shown).conn; d.mss == c.mss && d.initialmss == c.initialmss
  {
  }

  lemma EstablishedMss(c: Conn, s: Segment, acked: bool, app: App)
    requires c.state == ESTABLISHED
    ensures var d := InEstablished(c, s, acked, app).conn;
      d.initialmss == c.initialmss && d.mss == if s.flags.fin then c.mss else WindowMss(c, s)
  {
    var data := if c.stopped then [] else s.data;
    var c1 := c.(rcvNxt := Plus(c.rcvNxt, |data|), mss := WindowMss(c, s));
    CallKeepsMss(c1, Event(acked, data != [], false, false), app, [], data);
  }

  lemma StateMss(c: Conn, s: Segment, acked: bool, app: App)
    ensures var d := InState(c, s, acked, app).conn;
      && d.initialmss == c.initialmss
      && d.mss == if c.state == ESTABLISHED && !s.flags.fin then WindowMss(c, s) else c.mss
  {
    match c.state
    case SYN_RCVD =>
      var c2 := c.(state := ESTABLISHED, stopped := false, len := 0, rcvNxt := Plus(c.rcvNxt, |s.data|));
      CallKeepsMss(c2, Event(false, s.data != [], false, false), app, [ESTABLISHED], s.data);
    case SYN_SENT =>
      var c2 := c.(state := ESTABLISHED, stopped := false, len := 0, rcvNxt := Plus(s.seqno, 1));
      CallKeepsMss(c2, Event(false, true, false, false), app, [ESTABLISHED], []);
    case ESTABLISHED => EstablishedMss(c, s, acked, app);
    case _ =>
  }

  lemma TickMss(c: Conn, app: App)
    ensures var d := Tick(c, app).conn; d.initialmss == c.initialmss && d.mss == c.mss
  {
  }

  /** The window that the other end offers bounds mss, up to the initial one; an empty window counts as a full one. */
  lemma MssFollowsWindow(c: Conn, i: Stimulus)
    ensures var d := Step(c, i).conn;
      && d.initialmss == c.initialmss
      && d.mss == if i.Arrives? && LookedAt(c, i.segment) && c.state == ESTABLISHED && !i.segment.flags.fin then
                    WindowMss(c, i.segment)
                  else c.mss
  {
    match i
    case Ticks(app) => TickMss(c, app);
    case Arrives(s, app, e) => StateMss(TakeAck(c, s, e), s, Acknowledges(c, s), app);
  }

  // ----- What stays in flight -----

  /**
   The application is called for new data while its own are in flight, and has nothing to send: the code takes
   that for having nothing in flight.
   */
  predicate Forgets(c: Conn, i: Stimulus) {
    && i.Arrives? && LookedAt(c, i.segment) && InFlight(c, i) && MaySend(c, i) && i.app.slen == 0
  }

  /** What a connection that stays established has in flight afterwards. */
  ghost predicate KeepsFlight(c: Conn, i: Stimulus, d: Conn) {
    c.state == ESTABLISHED && d.state == ESTABLISHED ==>
      d.len == if MaySend(c, i) && !InFlight(c, i) then Share(c, i, d.mss) else if Forgets(c, i) then 0 else c.len
  }

  lemma TickKeepsFlight(c: Conn, app: App)
    ensures KeepsFlight(c, Ticks(app), Tick(c, app).conn)
  {
    if c.state == ESTABLISHED && c.len == 0 { CallSends(c, Event(false, false, false, false), app, [], []); }
  }

  lemma InputKeepsFlight(c: Conn, s: Segment, app: App, e: Estimate)
    requires LookedAt(c, s) && c.state == ESTABLISHED
    ensures KeepsFlight(c, Arrives(s, app, e), Input(c, s, app, e).conn)
  {
    AcksAllMeans(c, s, app, e);
    var c1, acked := TakeAck(c, s, e), Acknowledges(c, s);
    if !s.flags.fin {
      var data := if c.stopped then [] else s.data;
      var c2 := c1.(rcvNxt := Plus(c1.rcvNxt, |data|), mss := WindowMss(c, s));
      CallSends(c2, Event(acked, data != [], false, false), app, [], data);
    }
  }

  /**
   Data in flight stay in flight until they are acknowledged, but for the case Forgets. A FIN that acknowledges
   them leaves them in flight, although snd_nxt moves.
   */
  lemma WhatStaysInFlight(c: Conn, i: Stimulus)
    ensures KeepsFlight(c, i, Step(c, i).conn)
  {
    match i
    case Ticks(app) => TickKeepsFlight(c, app);
    case Arrives(s, app, e) => if LookedAt(c, s) && c.state == ESTABLISHED { InputKeepsFlight(c, s, app, e); }
  }

  /** Unacknowledged data are lost sight of exactly in that case. */
  lemma WhenDataAreForgotten(c: Conn, i: Stimulus)
    requires InFlight(c, i) && Step(c, i).conn.state == ESTABLISHED
    ensures Step(c, i).conn.len == if Forgets(c, i) then 0 else c.len
  {
    WhatStaysInFlight(c, i);
  }

  /** 500 bytes in flight, and a byte arrives for an application that has nothing to say: they are forgotten. */
  lemma ForgetsExample(c: Conn, s: Segment, silent: App)
    requires c.state == ESTABLISHED && !c.stopped && c.len == 500 && silent == App(0, false, false, false, false)
    requires s == Segment(Flags(false, false, false, false, true, false, false), c.rcvNxt, c.sndNxt, 1000, [7])
    ensures var o := Step(c, Arrives(s, silent, Estimate(c.sa, c.sv, c.rto)));
      o.conn.state == ESTABLISHED && o.conn.sndNxt == c.sndNxt && o.conn.len == 0 && o.reply == SendAck
  {
    WrapIsModulo(c.sndNxt + c.len);
  }

  /** Neither mss nor, while established, the data in flight exceed the initial mss. */
  ghost predicate Bounded(c: Conn) {
    c.mss <= c.initialmss && (c.state == ESTABLISHED ==> c.len <= c.initialmss)
  }

  lemma OpeningIsBounded(c: Conn, s: Segment, acked: bool, app: App)
    requires c.mss <= c.initialmss && (c.state == SYN_RCVD || c.state == SYN_SENT)
    ensures Bounded(InState(c, s, acked, app).conn)
  {
    if acked && c.state == SYN_RCVD {
      var c2 := c.(state := ESTABLISHED, stopped := false, len := 0, rcvNxt := Plus(c.rcvNxt, |s.data|));
      CallSends(c2, Event(false, s.data != [], false, false), app, [ESTABLISHED], s.data);
    } else if acked && s.flags == SYNACK {
      var c2 := c.(state := ESTABLISHED, stopped := false, len := 0, rcvNxt := Plus(s.seqno, 1));
      CallSends(c2, Event(false, true, false, false), app, [ESTABLISHED], []);
    }
  }

  lemma OtherStatesStay(c: Conn, i: Stimulus)
    requires c.state != ESTABLISHED && c.state != SYN_RCVD && c.state != SYN_SENT
    ensures Step(c, i).conn.state != ESTABLISHED
  {
  }

  lemma StepIsBounded(c: Conn, i: Stimulus)
    requires Bounded(c)
    ensures Bounded(Step(c, i).conn) && Step(c, i).conn.initialmss == c.initialmss
  {
    MssFollowsWindow(c, i);
    if c.state == ESTABLISHED {
      WhatStaysInFlight(c, i);
    } else if c.state == SYN_RCVD || c.state == SYN_SENT {
      if i.Arrives? && LookedAt(c, i.segment) {
        OpeningIsBounded(TakeAck(c, i.segment, i.estimate), i.segment, Acknowledges(c, i.segment), i.app);
      }
    } else {
      OtherStatesStay(c, i);
    }
  }

  lemma {:induction false} RunIsBounded(v: View, inputs: seq<Stimulus>, w: View)
    requires w == Run(v, inputs) && Inv(v.conn) && Bounded(v.conn)
    ensures Inv(w.conn) && Bounded(w.conn) && w.conn.initialmss == v.conn.initialmss
  {
    RunKeepsInv(v, inputs);
    if inputs != [] {
      var before, i := inputs[..|inputs| - 1], inputs[|inputs| - 1];
      RunIsBounded(v, before, Run(v, before));
      OneMore(v, inputs, Run(v, before), i);
      StepIsBounded(Run(v, before).conn, i);
    }
  }

  /** In every run from an open, no packet carries more data than the mss that was agreed on. */
  lemma DataFitMss(
    c: Conn, irs: Seqno, iss: Seqno, mss: Word, passive: bool, inputs: seq<Stimulus>, w: View, i: Stimulus)
    requires w == Run(Opened(if passive then Accepted(irs, iss, mss) else Connecting(c, iss, mss)), inputs)
    ensures Step(w.conn, i).reply.SendData? ==> Step(w.conn, i).reply.len <= mss
  {
    var v := Opened(if passive then Accepted(irs, iss, mss) else Connecting(c, iss, mss));
    RunIsBounded(v, inputs, w);
    StepIsBounded(w.conn, i);
    WhenDataAreSent(w.conn, i);
  }

  // ----- Time-outs -----

  /** An acknowledgement restarts the timer, from a new estimate unless something was sent twice. */
  lemma AckRestartsTimer(c: Conn, s: Segment, app: App, e: Estimate)
    requires Inv(c) && LookedAt(c, s)
    ensures var d := Step(c, Arrives(s, app, e)).conn;
      && (d.rto == if AcksAll(c, Arrives(s, app, e)) && c.nrtx == 0 then e.rto else c.rto)
      && (d.state != TIME_WAIT ==> d.timer == if AcksAll(c, Arrives(s, app, e)) then d.rto else c.timer)
      && (d.state == TIME_WAIT && c.state != TIME_WAIT ==> d.timer == 0)
  {
    AcksAllMeans(c, s, app, e);
  }

  /** Sending new data, or none, starts the count of retransmissions again. */
  lemma SendingStartsOver(c: Conn, i: Stimulus)
    requires MaySend(c, i) && Step(c, i).conn.state == ESTABLISHED
    ensures Step(c, i).conn.nrtx == 0
  {
    if i.Arrives? { AcksAllMeans(c, i.segment, i.app, i.estimate); }
  }

  // ----- Where a connection goes -----

  /** After a call of the application: it closes, aborts, or goes on. */
  predicate Decides(app: App, t: State) {
    t == if app.close then FIN_WAIT_1 else if app.abort then CLOSED else ESTABLISHED
  }

  /** The next state after a segment that is no reset and has no data or the expected number. */
  predicate GoesOn(c: Conn, i: Stimulus, t: State)
    requires i.Arrives?
  {
    match c.state
    case SYN_RCVD => if MaySend(c, i) then Decides(i.app, t) else t == SYN_RCVD
    case SYN_SENT => if MaySend(c, i) then Decides(i.app, t) else t == SYN_SENT
    case ESTABLISHED =>
      if i.segment.flags.fin then t == (if c.len == 0 then LAST_ACK else ESTABLISHED)
      else if MaySend(c, i) then Decides(i.app, t) else t == ESTABLISHED
    case FIN_WAIT_1 =>
      if i.segment.flags.fin then t == (if AcksAll(c, i) then TIME_WAIT else CLOSING)
      else t == if AcksAll(c, i) then FIN_WAIT_2 else FIN_WAIT_1
    case FIN_WAIT_2 => t == if i.segment.flags.fin then TIME_WAIT else FIN_WAIT_2
    case CLOSING => t == if AcksAll(c, i) then TIME_WAIT else CLOSING
    case LAST_ACK => t == if AcksAll(c, i) then CLOSED else LAST_ACK
    case TIME_WAIT => t == TIME_WAIT
    case CLOSED => t == CLOSED
  }

  lemma SegmentLeads(c: Conn, s: Segment, app: App, e: Estimate)
    requires LookedAt(c, s)
    ensures GoesOn(c, Arrives(s, app, e), Input(c, s, app, e).conn.state)
  {
    AcksAllMeans(c, s, app, e);
  }

  /**
   The next state in every case: a reset closes, other segments lead along the diagram of RFC 793, ticks close a
   connection that has waited or tried for too long and otherwise leave the decision to the application.
   */
  lemma WhereItGoes(c: Conn, i: Stimulus)
    requires Inv(c)
    ensures var t := Step(c, i).conn.state;
      match i
      case Arrives(s, _, _) =>
        if c.state != CLOSED && s.flags.rst then t == CLOSED
        else if LookedAt(c, s) then GoesOn(c, i, t) else t == c.state
      case Ticks(app) =>
        if MaySend(c, i) then Decides(app, t)
        else if Watched(c) && TicksToClose(c) == 1 then t == CLOSED
        else t == c.state
  {
    match i
    case Arrives(s, app, e) => if LookedAt(c, s) { SegmentLeads(c, s, app, e); }
    case Ticks(app) => if Watched(c) { TickCountsDown(c, app); }
  }

  /** What is sent and outstanding when the application closes. */
  lemma CloseSendsFin(c: Conn, i: Stimulus)
    requires MaySend(c, i) && i.app.close
    ensures var o := Step(c, i); o.reply == SendFinAck && o.conn.len == 1 && o.conn.nrtx == 0
  {
    if i.Arrives? { AcksAllMeans(c, i.segment, i.app, i.estimate); }
  }

  /** An unanswered open is given up after 28 ticks on the listening side and 26 on the other. */
  lemma OpensGiveUp(c: Conn, irs: Seqno, iss: Seqno, mss: Word)
    ensures var a, b := Accepted(irs, iss, mss), Connecting(c, iss, mss);
      && Inv(a) && Inv(b) && Watched(a) && Watched(b) && TicksToClose(a) == 28 && TicksToClose(b) == 26
      && a.sndNxt == b.sndNxt == iss && a.state == SYN_RCVD && b.state == SYN_SENT
  {
    TicksLeftBound(true, RTO, 0);
    TicksLeftBound(true, 1, 0);
  }

  // ----- What is answered -----

  predicate AcksData(r: Reply) { r == SendAck || r == SendFinAck || r.SendData? }

  lemma CallAnswers(c: Conn, e: Event, app: App, path: seq<State>, shown: seq<Byte>)
    requires c.state == ESTABLISHED && e.newdata && !e.close && !e.abort
    ensures var o := CallAndSend(c, e, app, path, shown); o.conn.state != CLOSED ==> AcksData(o.reply)
  {
  }

  lemma StateAnswers(c: Conn, s: Segment, acked: bool, app: App)
    ensures var o := InState(c, s, acked, app);
      o.conn.rcvNxt != c.rcvNxt && o.conn.state != CLOSED ==>
        AcksData(o.reply) || (c.state == FIN_WAIT_1 && acked && !s.flags.fin && s.data != [] && o.reply == NoReply)
  {
    match c.state
    case SYN_RCVD =>
      var c2 := c.(state := ESTABLISHED, stopped := false, len := 0, rcvNxt := Plus(c.rcvNxt, |s.data|));
      if s.data != [] { CallAnswers(c2, Event(false, true, false, false), app, [ESTABLISHED], s.data); }
    case SYN_SENT =>
      var c2 := c.(state := ESTABLISHED, stopped := false, len := 0, rcvNxt := Plus(s.seqno, 1));
      CallAnswers(c2, Event(false, true, false, false), app, [ESTABLISHED], []);
    case ESTABLISHED =>
      var c2 := c.(rcvNxt := Plus(c.rcvNxt, |s.data|), mss := WindowMss(c, s));
      if !c.stopped && s.data != [] { CallAnswers(c2, Event(acked, true, false, false), app, [], s.data); }
    case _ =>
  }

  /**
   What moves the expected number is acknowledged by the same call, but for data that come to FIN_WAIT_1 together
   with the acknowledgement of our FIN: they are taken and not answered.
   */
  lemma WhenAcceptedIsAnswered(c: Conn, i: Stimulus)
    ensures var o := Step(c, i);
      o.conn.rcvNxt != c.rcvNxt && o.conn.state != CLOSED ==>
        if c.state == FIN_WAIT_1 && AcksAll(c, i) && !i.segment.flags.fin then o.reply == NoReply else AcksData(o.reply)
  {
    match i
    case Ticks(app) => TickKeepsExpected(c, app);
    case Arrives(s, app, e) =>
      AcksAllMeans(c, s, app, e);
      StateAnswers(TakeAck(c, s, e), s, Acknowledges(c, s), app);
  }

  lemma TickKeepsExpected(c: Conn, app: App)
    ensures Tick(c, app).conn.rcvNxt == c.rcvNxt
  {
  }

  /** Data at another number than the expected one are answered with an acknowledgement and change nothing. */
  lemma OutOfOrderIsAnswered(c: Conn, s: Segment, app: App, e: Estimate)
    requires c.state != CLOSED && !s.flags.rst && s.data != [] && s.seqno != c.rcvNxt
    ensures var o := Step(c, Arrives(s, app, e)); o.reply == SendAck && o.conn == c && o.delivered == []
  {
  }

  /** The packet that carries what is outstanding in a state. */
  predicate Carries(c: Conn, r: Reply) {
    match c.state
    case SYN_SENT => r == SendSyn
    case SYN_RCVD => r == SendSynAck
    case ESTABLISHED => r == SendData(c.len)
    case FIN_WAIT_1 => r == SendFinAck
    case CLOSING => r == SendFinAck
    case LAST_ACK => r == SendFinAck
    case _ => false
  }

  /** Is it time to send again what is outstanding? */
  predicate Retransmits(c: Conn) {
    && c.state in {SYN_SENT, SYN_RCVD, ESTABLISHED, FIN_WAIT_1, CLOSING, LAST_ACK}
    && c.len != 0 && c.timer == 0 && c.nrtx < MAXRTX && (c.state in {SYN_SENT, SYN_RCVD} ==> c.nrtx != MAXSYNRTX)
  }

  /** A tick sends again what is outstanding when the timer has run down, as far as the application supplies it. */
  lemma TickResends(c: Conn, app: App)
    requires Inv(c) && c.len != 0
    ensures var o := Tick(c, app);
      if Retransmits(c) then
        && o.conn.state == c.state && o.conn.len == c.len && o.conn.nrtx == c.nrtx + 1 && o.conn.sndNxt == c.sndNxt
        && (c.state != ESTABLISHED || app.slen > 0 ==> Carries(c, o.reply))
      else o.reply == NoReply || o.reply == SendRstAck
  {
  }

  predicate SendsReset(c: Conn, i: Stimulus, o: Outcome) {
    o.reply == SendRstAck <==>
      || (MaySend(c, i) && i.app.abort && !i.app.close)
      || (i.Ticks? && c.state !in {CLOSED, TIME_WAIT, FIN_WAIT_2} && c.len != 0 && c.timer == 0 && !Retransmits(c))
      || (i.Arrives? && LookedAt(c, i.segment) && c.state == SYN_SENT && !MaySend(c, i))
  }

  lemma TickResets(c: Conn, app: App)
    requires Inv(c)
    ensures SendsReset(c, Ticks(app), Tick(c, app))
  {
  }

  lemma SegmentResets(c: Conn, s: Segment, app: App, e: Estimate)
    requires LookedAt(c, s)
    ensures SendsReset(c, Arrives(s, app, e), Input(c, s, app, e))
  {
    AcksAllMeans(c, s, app, e);
  }

  /** Resets are sent exactly by an abort of the application, by giving up, and to what does not answer our SYN. */
  lemma WhenResetIsSent(c: Conn, i: Stimulus)
    requires Inv(c)
    ensures SendsReset(c, i, Step(c, i))
  {
    match i
    case Ticks(app) => TickResets(c, app);
    case Arrives(s, app, e) => if LookedAt(c, s) { SegmentResets(c, s, app, e); }
  }

  /** A FIN to an established connection with nothing outstanding. */
  predicate AnswersFin(c: Conn, i: Stimulus) {
    i.Arrives? && LookedAt(c, i.segment) && c.state == ESTABLISHED && i.segment.flags.fin && c.len == 0
  }

  predicate SendsSynAndFin(c: Conn, i: Stimulus, o: Outcome) {
    var again := i.Ticks? && Retransmits(c);
    && (o.reply == SendSyn <==> again && c.state == SYN_SENT)
    && (o.reply == SendSynAck <==> again && c.state == SYN_RCVD)
    && (o.reply == SendFinAck <==>
          || (again && c.state in {FIN_WAIT_1, CLOSING, LAST_ACK})
          || (MaySend(c, i) && i.app.close) || AnswersFin(c, i))
    && (AnswersFin(c, i) ==> o.conn.len == 1 && o.conn.nrtx == 0)
  }

  /** Segments that are answered with an acknowledgement without asking the application. */
  predicate OwesAck(c: Conn, i: Stimulus) {
    i.Arrives? && c.state != CLOSED && !i.segment.flags.rst &&
    var s := i.segment;
    if !LookedAt(c, s) then true
    else match c.state
      case TIME_WAIT => true
      case FIN_WAIT_1 => s.flags.fin || (s.data != [] && !AcksAll(c, i))
      case FIN_WAIT_2 => s.flags.fin || s.data != []
      case _ => false
  }

  /** The call has something to acknowledge: new data, the peer's SYN, or the window that uip_restart opens. */
  predicate HasNews(c: Conn, i: Stimulus) {
    || i.app.restart
    || (i.Arrives? && (c.state == SYN_SENT || (i.segment.data != [] && !(c.state == ESTABLISHED && c.stopped))))
  }

  predicate SendsAck(c: Conn, i: Stimulus, o: Outcome) {
    o.reply == SendAck <==>
      || OwesAck(c, i)
      || ((i.app.slen == 0 || Share(c, i, o.conn.mss) == 0) &&
            if AsksAgain(c, i) then i.app.restart
            else MaySend(c, i) && HasNews(c, i) && !i.app.close && !i.app.abort)
  }

  /** What a call sends that does not carry data. */
  lemma CallReplies(c: Conn, e: Event, app: App, path: seq<State>, shown: seq<Byte>)
    requires !e.close && !e.abort
    ensures var o := CallAndSend(c, e, app, path, shown);
      && (o.reply == SendFinAck <==> app.close) && o.reply != SendSyn && o.reply != SendSynAck
      && (o.reply == SendAck <==>
            !app.close && !app.abort && (e.newdata || app.restart) && !(app.slen > 0 && o.conn.len > 0))
  {
  }

  lemma TickReplies(c: Conn, app: App)
    requires Inv(c)
    ensures var i, o := Ticks(app), Tick(c, app); SendsSynAndFin(c, i, o) && SendsAck(c, i, o)
  {
    if c.state == ESTABLISHED && c.len == 0 {
      CallReplies(c, Event(false, false, false, false), app, [], []);
      CallSends(c, Event(false, false, false, false), app, [], []);
    }
  }

  lemma OpeningReplies(c: Conn, s: Segment, app: App, e: Estimate)
    requires Inv(c) && LookedAt(c, s) && (c.state == SYN_RCVD || c.state == SYN_SENT)
    ensures var i, o := Arrives(s, app, e), Input(c, s, app, e); SendsSynAndFin(c, i, o) && SendsAck(c, i, o)
  {
    AcksAllMeans(c, s, app, e);
    var c1 := TakeAck(c, s, e);
    if c.state == SYN_RCVD {
      var c2 := c1.(state := ESTABLISHED, stopped := false, len := 0, rcvNxt := Plus(c1.rcvNxt, |s.data|));
      CallReplies(c2, Event(false, s.data != [], false, false), app, [ESTABLISHED], s.data);
      CallSends(c2, Event(false, s.data != [], false, false), app, [ESTABLISHED], s.data);
    } else {
      var c2 := c1.(state := ESTABLISHED, stopped := false, len := 0, rcvNxt := Plus(s.seqno, 1));
      CallReplies(c2, Event(false, true, false, false), app, [ESTABLISHED], []);
      CallSends(c2, Event(false, true, false, false), app, [ESTABLISHED], []);
    }
  }

  lemma EstablishedReplies(c: Conn, s: Segment, app: App, e: Estimate)
    requires Inv(c) && LookedAt(c, s) && c.state == ESTABLISHED
    ensures var i, o := Arrives(s, app, e), Input(c, s, app, e); SendsSynAndFin(c, i, o) && SendsAck(c, i, o)
  {
    AcksAllMeans(c, s, app, e);
    if !s.flags.fin {
      var c1, acked, data := TakeAck(c, s, e), Acknowledges(c, s), if c.stopped then [] else s.data;
      var c2 := c1.(rcvNxt := Plus(c1.rcvNxt, |data|), mss := WindowMss(c, s));
      CallReplies(c2, Event(acked, data != [], false, false), app, [], data);
      CallSends(c2, Event(acked, data != [], false, false), app, [], data);
    }
  }

  lemma ClosingReplies(c: Conn, s: Segment, app: App, e: Estimate)
    requires Inv(c) && LookedAt(c, s) && c.state !in {SYN_RCVD, SYN_SENT, ESTABLISHED}
    ensures var i, o := Arrives(s, app, e), Input(c, s, app, e); SendsSynAndFin(c, i, o) && SendsAck(c, i, o)
  {
    AcksAllMeans(c, s, app, e);
  }

  /**
   When exactly SYN, FIN and a bare acknowledgement are sent: SYN and FIN when the timer has run down in their
   states, a FIN also by who closes, first or second.
   */
  lemma WhenTheyAreSent(c: Conn, i: Stimulus)
    requires Inv(c)
    ensures var o := Step(c, i); SendsSynAndFin(c, i, o) && SendsAck(c, i, o)
  {
    match i
    case Ticks(app) => TickReplies(c, app);
    case Arrives(s, app, e) =>
      if LookedAt(c, s) {
        match c.state
        case SYN_RCVD => OpeningReplies(c, s, app, e);
        case SYN_SENT => OpeningReplies(c, s, app, e);
        case ESTABLISHED => EstablishedReplies(c, s, app, e);
        case _ => ClosingReplies(c, s, app, e);
      }
  }
}
