/**
 Receive safety of the TCP machine (contrib/dev/uip/uip.c; sections 3.3 and 3.9 of RFC 793): whatever the
 network loses, duplicates or reorders, the application sees a prefix of what the peer sent.
 */
module TcpReceive {
  import opened Bytes
  import opened Tcp
  import opened TcpMachine
  import TcpSend

  /** The peer: its initial sequence number and everything it ever sends. */
  datatype Peer = Peer(irs: Seqno, stream: seq<Byte>)
  {
    predicate Valid() { |stream| < TWO32 }
  }

  /** The data of the segment are those bytes of the stream that its sequence number says. */
  predicate CutAt(p: Peer, s: Segment, off: nat) {
    off + |s.data| <= |p.stream| && s.data == p.stream[off..off + |s.data|] && s.seqno == Plus(p.irs, 1 + off)
  }

  /**
   A segment of this peer: data come from the stream, a SYN carries the initial sequence number and no
   data. Acknowledgements, window, other flags and the sequence number of an empty segment are arbitrary.
   */
  ghost predicate FromPeer(p: Peer, s: Segment) {
    && s.Valid()
    && (s.data != [] ==> exists off: nat :: CutAt(p, s, off))
    && (s.flags.syn ==> s.seqno == p.irs && s.data == [])
  }

  ghost predicate AllFromPeer(p: Peer, inputs: seq<Stimulus>) {
    forall i :: 0 <= i < |inputs| && inputs[i].Arrives? ==> FromPeer(p, inputs[i].segment)
  }

  /** Has the peer's FIN been taken? */
  predicate FinTaken(s: State) {
    s == CLOSING || s == TIME_WAIT || s == LAST_ACK
  }

  /** Does the application still get to see everything that is accepted? */
  predicate StillReading(s: State) {
    s == SYN_SENT || s == SYN_RCVD || s == ESTABLISHED || s == LAST_ACK
  }

  /** The receiver's invariant: what is accepted, what is shown, and what rcv_nxt says. */
  ghost predicate Receiving(p: Peer, v: View) {
    && v.accepted <= |p.stream| && |v.shown| <= v.accepted && v.shown == p.stream[..|v.shown|]
    && (StillReading(v.conn.state) ==> |v.shown| == v.accepted)
    && (v.conn.state == SYN_SENT ==> v.accepted == 0)
    && (v.conn.state != CLOSED && v.conn.state != SYN_SENT ==>
          v.conn.rcvNxt == Plus(p.irs, 1 + v.accepted + if FinTaken(v.conn.state) then 1 else 0))
  }

  /** A segment whose number is the expected one starts right behind the accepted bytes. */
  lemma ExpectedOffset(p: Peer, s: Segment, n: nat)
    requires p.Valid() && FromPeer(p, s) && s.data != [] && n <= |p.stream| && s.seqno == Plus(p.irs, 1 + n)
    ensures n + |s.data| <= |p.stream| && s.data == p.stream[n..n + |s.data|]
  {
    var off: nat :| CutAt(p, s, off);
    SameOffset(p.irs, n, off);
  }

  lemma SameOffset(irs: Seqno, n: nat, off: nat)
    requires n < TWO32 && off < TWO32 && Plus(irs, 1 + n) == Plus(irs, 1 + off)
    ensures n == off
  {
    WrapIsModulo(irs + 1 + n);
    WrapIsModulo(irs + 1 + off);
    ModDistance(irs + 1 + n, irs + 1 + off);
  }

  lemma ModDistance(a: int, b: int)
    requires a % TWO32 == b % TWO32 && -TWO32 < a - b < TWO32
    ensures a == b
  {
    assert a == TWO32 * (a / TWO32) + a % TWO32 && b == TWO32 * (b / TWO32) + b % TWO32;
  }

  lemma PlusPlus(n: Seqno, j: nat, k: nat)
    ensures Plus(Plus(n, j), k) == Plus(n, j + k)
  {
    WrapIsModulo(n + j);
    WrapIsModulo(n + j + k);
    WrapIsModulo(Plus(n, j) + k);
  }

  /** Taking data at the expected number moves rcv_nxt and extends the prefix. */
  lemma TakesData(p: Peer, v: View, s: Segment)
    requires p.Valid() && FromPeer(p, s) && v.accepted <= |p.stream|
    requires v.conn.rcvNxt == Plus(p.irs, 1 + v.accepted)
    requires s.data == [] || s.seqno == v.conn.rcvNxt
    ensures v.accepted + |s.data| <= |p.stream|
    ensures p.stream[..v.accepted] + s.data == p.stream[..v.accepted + |s.data|]
    ensures Plus(v.conn.rcvNxt, |s.data|) == Plus(p.irs, 1 + v.accepted + |s.data|)
    ensures Plus(v.conn.rcvNxt, 1 + |s.data|) == Plus(p.irs, 1 + v.accepted + |s.data| + 1)
    ensures Plus(Plus(v.conn.rcvNxt, |s.data|), 1) == Plus(p.irs, 1 + v.accepted + |s.data| + 1)
    ensures Plus(v.conn.rcvNxt, 0) == v.conn.rcvNxt
  {
    var n := v.accepted;
    PlusPlus(p.irs, 1 + n, |s.data|);
    PlusPlus(p.irs, 1 + n + |s.data|, 1);
    PlusPlus(p.irs, 1 + n, 1 + |s.data|);
    if s.data != [] { ExpectedOffset(p, s, n); }
  }

  /** The callback and appsend do not touch the receive side. */
  lemma SendLeavesReceiver(c: Conn, e: Event, app: App, path: seq<State>, delivered: seq<Byte>)
    requires c.state == ESTABLISHED
    ensures var o := CallAndSend(c, e, app, path, delivered);
      && o.delivered == delivered && o.accepted == |delivered| && o.conn.rcvNxt == c.rcvNxt
      && (o.conn.state == ESTABLISHED || o.conn.state == FIN_WAIT_1 || o.conn.state == CLOSED)
  {
  }

  /** Segments that are looked at: no reset, and data only at the expected number. */
  predicate InSequence(c: Conn, s: Segment) {
    !s.flags.rst && (s.data == [] || s.seqno == c.rcvNxt)
  }

  lemma SynRcvdReceiveSide(c: Conn, s: Segment, acked: bool, app: App)
    requires c.state == SYN_RCVD
    ensures var o := InSynRcvd(c, s, acked, app);
      && o.accepted == |o.delivered|
      && if acked then
           && (o.conn.state == ESTABLISHED || o.conn.state == FIN_WAIT_1 || o.conn.state == CLOSED)
           && o.delivered == s.data && o.conn.rcvNxt == Plus(c.rcvNxt, |s.data|)
         else o.conn == c && o.delivered == []
  {
    var c1 := c.(state := ESTABLISHED, stopped := false, len := 0, rcvNxt := Plus(c.rcvNxt, |s.data|));
    SendLeavesReceiver(c1, Event(false, s.data != [], false, false), app, [ESTABLISHED], s.data);
  }

  lemma SynRcvdInputReceives(p: Peer, v: View, s: Segment, app: App, e: Estimate)
    requires p.Valid() && FromPeer(p, s) && Inv(v.conn) && Receiving(p, v) && v.conn.state == SYN_RCVD
    requires InSequence(v.conn, s)
    ensures Receiving(p, Advance(v, Arrives(s, app, e)))
  {
    var c, acked := TakeAck(v.conn, s, e), Acknowledges(v.conn, s);
    var o := InSynRcvd(c, s, acked, app);
    SynRcvdReceiveSide(c, s, acked, app);
    if acked { OutcomeReceives(p, v, s, o); }
    assert v.shown + [] == v.shown;
  }

  /** The receive side of a segment in ESTABLISHED: refused, or taken with the FIN, or taken unless stopped. */
  lemma EstablishedReceiveSide(c: Conn, s: Segment, acked: bool, app: App)
    requires c.state == ESTABLISHED
    ensures var o := InEstablished(c, s, acked, app);
      && o.accepted == |o.delivered|
      && if s.flags.fin && c.len == 0 then
           o.conn.state == LAST_ACK && o.delivered == s.data && o.conn.rcvNxt == Plus(c.rcvNxt, 1 + |s.data|)
         else
           && (o.conn.state == ESTABLISHED || o.conn.state == FIN_WAIT_1 || o.conn.state == CLOSED)
           && ((o.delivered == [] && o.conn.rcvNxt == Plus(c.rcvNxt, 0)) ||
               (o.delivered == s.data && o.conn.rcvNxt == Plus(c.rcvNxt, |s.data|)))
  {
    var data := if c.stopped then [] else s.data;
    var mss := if s.wnd > c.initialmss || s.wnd == 0 then c.initialmss else s.wnd;
    var c1 := c.(rcvNxt := Plus(c.rcvNxt, |data|), mss := mss);
    SendLeavesReceiver(c1, Event(acked, data != [], false, false), app, [], data);
  }

  /** A reset closes the connection, and out of sequence data change nothing. */
  lemma RefusalReceives(p: Peer, v: View, s: Segment, app: App, e: Estimate)
    requires Receiving(p, v) && v.conn.state != CLOSED && !InSequence(v.conn, s)
    ensures Receiving(p, Advance(v, Arrives(s, app, e)))
  {
    assert v.shown + [] == v.shown;
  }

  lemma EstablishedInputReceives(p: Peer, v: View, s: Segment, app: App, e: Estimate)
    requires p.Valid() && FromPeer(p, s) && Inv(v.conn) && Receiving(p, v) && v.conn.state == ESTABLISHED
    requires InSequence(v.conn, s)
    ensures Receiving(p, Advance(v, Arrives(s, app, e)))
  {
    var c := TakeAck(v.conn, s, e);
    EstablishedReceiveSide(c, s, Acknowledges(v.conn, s), app);
    OutcomeReceives(p, v, s, InEstablished(c, s, Acknowledges(v.conn, s), app));
  }

  /** Any outcome with that receive side continues the prefix. */
  lemma OutcomeReceives(p: Peer, v: View, s: Segment, o: Outcome)
    requires p.Valid() && FromPeer(p, s) && Receiving(p, v) && (v.conn.state == SYN_RCVD || v.conn.state == ESTABLISHED)
    requires s.data == [] || s.seqno == v.conn.rcvNxt
    requires o.accepted == |o.delivered|
    requires
      || (o.conn.state == LAST_ACK && o.delivered == s.data && o.conn.rcvNxt == Plus(v.conn.rcvNxt, 1 + |s.data|))
      || ((o.conn.state == ESTABLISHED || o.conn.state == FIN_WAIT_1 || o.conn.state == CLOSED) &&
          ((o.delivered == [] && o.conn.rcvNxt == Plus(v.conn.rcvNxt, 0)) ||
           (o.delivered == s.data && o.conn.rcvNxt == Plus(v.conn.rcvNxt, |s.data|))))
    ensures Receiving(p, View(o.conn, v.accepted + o.accepted, v.shown + o.delivered))
  {
    TakesData(p, v, s);
    var shown := v.shown + o.delivered;
    if o.delivered == [] { assert shown == v.shown; }
    assert shown == p.stream[..v.accepted + o.accepted] && |shown| == v.accepted + o.accepted;
  }

  /** An outcome after the application's close: data count as accepted and are not shown. */
  predicate Silent(c: Conn, s: Segment, o: Outcome) {
    && o.delivered == [] && o.accepted == |s.data|
    && if s.flags.fin then
         (o.conn.state == TIME_WAIT || o.conn.state == CLOSING) && o.conn.rcvNxt == Plus(Plus(c.rcvNxt, |s.data|), 1)
       else
         (o.conn.state == FIN_WAIT_1 || o.conn.state == FIN_WAIT_2) && o.conn.rcvNxt == Plus(c.rcvNxt, |s.data|)
  }

  lemma FinWaitReceiveSide(c: Conn, s: Segment, acked: bool)
    ensures c.state == FIN_WAIT_1 ==> Silent(c, s, InFinWait1(c, s, acked))
    ensures c.state == FIN_WAIT_2 ==> Silent(c, s, InFinWait2(c, s))
  {
  }

  lemma SilentReceives(p: Peer, v: View, s: Segment, o: Outcome)
    requires p.Valid() && FromPeer(p, s) && Receiving(p, v)
    requires v.conn.state == FIN_WAIT_1 || v.conn.state == FIN_WAIT_2
    requires (s.data == [] || s.seqno == v.conn.rcvNxt) && Silent(v.conn, s, o)
    ensures Receiving(p, View(o.conn, v.accepted + o.accepted, v.shown + o.delivered))
  {
    assert v.shown + [] == v.shown;
    TakesData(p, v, s);
  }

  lemma FinWaitInputReceives(p: Peer, v: View, s: Segment, app: App, e: Estimate)
    requires p.Valid() && FromPeer(p, s) && Inv(v.conn) && Receiving(p, v)
    requires (v.conn.state == FIN_WAIT_1 || v.conn.state == FIN_WAIT_2) && InSequence(v.conn, s)
    ensures Receiving(p, Advance(v, Arrives(s, app, e)))
  {
    var c, acked := TakeAck(v.conn, s, e), Acknowledges(v.conn, s);
    FinWaitReceiveSide(c, s, acked);
    SilentReceives(p, v, s, if c.state == FIN_WAIT_1 then InFinWait1(c, s, acked) else InFinWait2(c, s));
  }

  lemma InputReceives(p: Peer, v: View, s: Segment, app: App, e: Estimate)
    requires p.Valid() && FromPeer(p, s) && Inv(v.conn) && v.conn.state != CLOSED && Receiving(p, v)
    ensures Receiving(p, Advance(v, Arrives(s, app, e)))
  {
    assert v.shown + [] == v.shown;
    if !InSequence(v.conn, s) {
      RefusalReceives(p, v, s, app, e);
      return;
    }
    match v.conn.state
    case SYN_RCVD => SynRcvdInputReceives(p, v, s, app, e);
    case ESTABLISHED => EstablishedInputReceives(p, v, s, app, e);
    case FIN_WAIT_1 => FinWaitInputReceives(p, v, s, app, e);
    case FIN_WAIT_2 => FinWaitInputReceives(p, v, s, app, e);
    case _ =>
  }

  lemma TickReceives(p: Peer, v: View, app: App)
    requires Inv(v.conn) && Receiving(p, v)
    ensures Receiving(p, Advance(v, Ticks(app)))
  {
    assert v.shown + [] == v.shown;
  }

  lemma AdvanceReceives(p: Peer, v: View, i: Stimulus)
    requires p.Valid() && (i.Arrives? ==> FromPeer(p, i.segment)) && Inv(v.conn) && Receiving(p, v)
    ensures Receiving(p, Advance(v, i))
  {
    match i
    case Arrives(s, app, e) =>
      if v.conn.state == CLOSED { assert v.shown + [] == v.shown; } else { InputReceives(p, v, s, app, e); }
    case Ticks(app) => TickReceives(p, v, app);
  }

  /**
   Receive safety over all runs: the bytes flagged UIP_NEWDATA are a prefix of the peer's stream, all
   accepted bytes are shown until the application closes, and rcv_nxt counts what was accepted.
   */
  lemma {:induction false} ReceiveSafety(p: Peer, v: View, inputs: seq<Stimulus>)
    requires p.Valid() && AllFromPeer(p, inputs) && Inv(v.conn) && Receiving(p, v)
    ensures Receiving(p, Run(v, inputs))
  {
    if inputs != [] {
      var last := |inputs| - 1;
      ReceiveSafety(p, v, inputs[..last]);
      RunKeepsInv(v, inputs[..last]);
      AdvanceReceives(p, Run(v, inputs[..last]), inputs[last]);
    }
  }

  /** A connection made by a listening port from the peer's SYN starts in the invariant. */
  lemma PassiveOpenReceives(p: Peer, iss: Seqno, mss: Word)
    ensures var v := Opened(Accepted(p.irs, iss, mss)); Inv(v.conn) && Receiving(p, v)
  {
  }

  /** So does one made by uip_connect, whatever slot it takes over. */
  lemma ActiveOpenReceives(p: Peer, slot: Conn, iss: Seqno, mss: Word)
    ensures var v := Opened(Connecting(slot, iss, mss)); Inv(v.conn) && Receiving(p, v)
  {
  }

  /** The receiver is not merely silent: the next piece of the stream, in order, is shown in full. */
  lemma InOrderDataIsDelivered(p: Peer, v: View, s: Segment, app: App, e: Estimate)
    requires p.Valid() && Inv(v.conn) && Receiving(p, v) && v.conn.state == ESTABLISHED && !v.conn.stopped
    requires FromPeer(p, s) && !s.flags.rst && !s.flags.fin && CutAt(p, s, v.accepted)
    ensures Advance(v, Arrives(s, app, e)).shown == p.stream[..v.accepted + |s.data|]
  {
    assert v.shown + s.data == p.stream[..v.accepted + |s.data|];
  }

  /**
   Bytes are acknowledged without being shown exactly for data at the expected number in FIN_WAIT_1 and
   FIN_WAIT_2, unless the segment is a reset; then all of the segment's bytes are.
   */
  lemma WhenBytesAreDropped(c: Conn, i: Stimulus)
    ensures var o := Step(c, i);
      && |o.delivered| <= o.accepted
      && (|o.delivered| < o.accepted <==>
            && i.Arrives? && !i.segment.flags.rst && i.segment.data != [] && i.segment.seqno == c.rcvNxt
            && (c.state == FIN_WAIT_1 || c.state == FIN_WAIT_2))
      && (|o.delivered| < o.accepted ==> o.delivered == [] && o.accepted == |i.segment.data|)
  {
    if i.Arrives? {
      var s := i.segment;
      var c1, acked := TakeAck(c, s, i.estimate), Acknowledges(c, s);
      if c.state == SYN_RCVD { SynRcvdReceiveSide(c1, s, acked, i.app); }
      if c.state == ESTABLISHED { EstablishedReceiveSide(c1, s, acked, i.app); }
    }
  }

  /** A segment's data are taken unless the connection is not open yet, stopped or being closed by the other end. */
  predicate MayTake(c: Conn, i: Stimulus) {
    && i.Arrives? && InSequence(c, i.segment)
    && match c.state
       case SYN_RCVD => TcpSend.AcksAll(c, i)
       case ESTABLISHED => if i.segment.flags.fin then c.len == 0 else !c.stopped
       case FIN_WAIT_1 => true
       case FIN_WAIT_2 => true
       case _ => false
  }

  /** Data are taken as a whole or not at all. */
  lemma WhenDataAreTaken(c: Conn, i: Stimulus)
    ensures Step(c, i).accepted == if MayTake(c, i) then |i.segment.data| else 0
  {
    if i.Arrives? {
      var s := i.segment;
      var c1, acked := TakeAck(c, s, i.estimate), Acknowledges(c, s);
      TcpSend.AcksAllMeans(c, s, i.app, i.estimate);
      if c.state == SYN_RCVD { SynRcvdReceiveSide(c1, s, acked, i.app); }
      if c.state == ESTABLISHED && !s.flags.fin { FlowReceiveSide(c1, s, acked, i.app); }
    }
  }

  lemma FlowReceiveSide(c: Conn, s: Segment, acked: bool, app: App)
    requires c.state == ESTABLISHED && !s.flags.fin
    ensures var o := InEstablished(c, s, acked, app);
      o.accepted == (if c.stopped then 0 else |s.data|) && o.delivered == if c.stopped then [] else s.data
  {
    var data := if c.stopped then [] else s.data;
    var c1 := c.(rcvNxt := Plus(c.rcvNxt, |data|), mss := TcpSend.WindowMss(c, s));
    SendLeavesReceiver(c1, Event(acked, data != [], false, false), app, [], data);
  }

  /** The flow stops and starts by the application's word alone, when it is called. */
  lemma WhenFlowStops(c: Conn, i: Stimulus)
    requires Inv(c) && c.state == ESTABLISHED && Step(c, i).conn.state == ESTABLISHED
    ensures Step(c, i).conn.stopped ==
      if !TcpSend.MaySend(c, i) && !TcpSend.AsksAgain(c, i) then c.stopped
      else !i.app.restart && (c.stopped || i.app.stop)
  {
    if i.Arrives? { TcpSend.AcksAllMeans(c, i.segment, i.app, i.estimate); }
  }

  // ----- When the peer's FIN is taken -----

  /** Does the code look at a FIN in this state? */
  predicate TakesFin(c: Conn) {
    (c.state == ESTABLISHED && c.len == 0) || c.state == FIN_WAIT_1 || c.state == FIN_WAIT_2
  }

  /**
   When a FIN is taken. RFC 793 would require its sequence number to be the expected one; the code checks the
   number only of segments that carry data, so a bare FIN is taken at any number.
   */
  lemma WhenFinIsTaken(c: Conn, i: Stimulus)
    requires Inv(c) && !FinTaken(c.state)
    ensures FinTaken(Step(c, i).conn.state) <==>
      && i.Arrives? && i.segment.flags.fin && !i.segment.flags.rst && TakesFin(c)
      && (i.segment.data == [] || i.segment.seqno == c.rcvNxt)
  {
    if i.Arrives? {
      var s := i.segment;
      var c1, acked := TakeAck(c, s, i.estimate), Acknowledges(c, s);
      if c.state == SYN_RCVD { SynRcvdReceiveSide(c1, s, acked, i.app); }
      if c.state == ESTABLISHED { EstablishedReceiveSide(c1, s, acked, i.app); }
    }
  }

  lemma StepAfterFin(c: Conn, i: Stimulus)
    requires FinTaken(c.state) || c.state == CLOSED
    ensures var o := Step(c, i);
      o.delivered == [] && o.accepted == 0 && (FinTaken(o.conn.state) || o.conn.state == CLOSED)
  {
  }

  /** Nothing is accepted or shown after a FIN. */
  lemma {:induction false} NothingAfterFin(v: View, later: seq<Stimulus>)
    requires FinTaken(v.conn.state) || v.conn.state == CLOSED
    ensures var w := Run(v, later);
      && w.shown == v.shown && w.accepted == v.accepted
      && (FinTaken(w.conn.state) || w.conn.state == CLOSED)
  {
    if later != [] {
      var last := |later| - 1;
      NothingAfterFin(v, later[..last]);
      StepAfterFin(Run(v, later[..last]).conn, later[last]);
      assert v.shown + [] == v.shown;
    }
  }

  /**
   A FIN that is taken in ESTABLISHED ends the stream for good: the application has seen all of it exactly if
   the FIN's segment reaches its end. A bare FIN that overtakes data cuts the data off.
   */
  lemma FinEndsStream(p: Peer, v: View, i: Stimulus, later: seq<Stimulus>)
    requires p.Valid() && Inv(v.conn) && Receiving(p, v) && v.conn.state == ESTABLISHED
    requires FinTaken(Step(v.conn, i).conn.state) && FromPeer(p, i.segment)
    ensures var n := v.accepted + |i.segment.data|;
      && n <= |p.stream| && Run(Advance(v, i), later).shown == p.stream[..n]
      && (Run(Advance(v, i), later).shown == p.stream <==> n == |p.stream|)
  {
    WhenFinIsTaken(v.conn, i);
    NothingAfterFin(Advance(v, i), later);
    TakesData(p, v, i.segment);
    EstablishedReceiveSide(TakeAck(v.conn, i.segment, i.estimate), i.segment, Acknowledges(v.conn, i.segment), i.app);
  }

  // ----- One byte and a FIN, in both orders -----

  const PLAIN := Flags(false, false, false, false, true, false, false)
  const SILENT := App(0, false, false, false, false)

  function OneByte(): Peer { Peer(0, [7]) }

  /** Its acknowledgement of our SYN, its byte at number 1, and its FIN behind the byte, at number 2. */
  function FromOneByte(k: nat): Stimulus
    requires k < 3
  {
    var s := if k == 0 then Segment(PLAIN, 1, 1, 1000, [])
             else if k == 1 then Segment(PLAIN, 1, 1, 1000, [7])
             else Segment(PLAIN.(fin := true), 2, 1, 1000, []);
    Arrives(s, SILENT, Estimate(0, 4, RTO))
  }

  /** Our connection with that peer before and after its FIN. */
  function OpenAt(rcvNxt: Seqno): Conn { Conn(ESTABLISHED, false, rcvNxt, 1, 0, 536, 536, 0, 4, RTO, RTO, 0) }

  function EndedAt(rcvNxt: Seqno): Conn { OpenAt(rcvNxt).(state := LAST_ACK, len := 1) }

  lemma AckOpens(v: View)
    requires v == Opened(Accepted(0, 0, 536))
    ensures Advance(v, FromOneByte(0)) == View(OpenAt(1), 0, [])
  {
  }

  lemma ByteFirst(v: View)
    requires v == View(OpenAt(1), 0, [])
    ensures Advance(v, FromOneByte(1)) == View(OpenAt(2), 1, [7])
  {
  }

  lemma FinSecond(v: View)
    requires v == View(OpenAt(2), 1, [7])
    ensures Advance(v, FromOneByte(2)).shown == [7]
  {
  }

  lemma FinFirst(v: View)
    requires v == View(OpenAt(1), 0, [])
    ensures Advance(v, FromOneByte(2)) == View(EndedAt(2), 0, [])
  {
  }

  lemma ByteSecond(v: View)
    requires v == View(EndedAt(2), 0, [])
    ensures Advance(v, FromOneByte(1)).shown == []
  {
  }

  lemma RunOfThree(v0: View, v1: View, v2: View, a: Stimulus, b: Stimulus, c: Stimulus)
    requires v1 == Advance(v0, a) && v2 == Advance(v1, b)
    ensures Run(v0, [a, b, c]) == Advance(v2, c)
  {
    assert [a, b, c][..2] == [a, b] && [a, b][..1] == [a] && [a][..0] == [];
    assert Run(v0, [a, b]) == Advance(Run(v0, [a]), b);
    assert Run(v0, [a]) == Advance(v0, a);
  }

  /** They are segments of this peer, in any order. */
  lemma OneByteIsFromPeer(inputs: seq<Stimulus>)
    requires forall i :: 0 <= i < |inputs| ==> exists k: nat :: k < 3 && inputs[i] == FromOneByte(k)
    ensures AllFromPeer(OneByte(), inputs)
  {
    assert CutAt(OneByte(), FromOneByte(1).segment, 0);
  }

  /** In order, the byte is shown. */
  lemma DataThenFin(v: View)
    requires v == Opened(Accepted(0, 0, 536))
    ensures Run(v, [FromOneByte(0), FromOneByte(1), FromOneByte(2)]).shown == OneByte().stream
  {
    var a, b := View(OpenAt(1), 0, []), View(OpenAt(2), 1, [7]);
    AckOpens(v);
    ByteFirst(a);
    FinSecond(b);
    RunOfThree(v, a, b, FromOneByte(0), FromOneByte(1), FromOneByte(2));
  }

  /** The same segments, with the FIN before the byte: it is never shown. */
  lemma FinOvertakesData(v: View)
    requires v == Opened(Accepted(0, 0, 536))
    ensures Run(v, [FromOneByte(0), FromOneByte(2), FromOneByte(1)]).shown == []
  {
    var a, b := View(OpenAt(1), 0, []), View(EndedAt(2), 0, []);
    AckOpens(v);
    FinFirst(a);
    ByteSecond(b);
    RunOfThree(v, a, b, FromOneByte(0), FromOneByte(2), FromOneByte(1));
  }
}
