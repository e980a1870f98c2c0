/**
 The TCP machine of uIP as functions on one connection (contrib/dev/uip/uip.c).

 Segment and Tick say what one call of uip_process does to the connection it works on; the class in
 TcpEngine.dfy does the same step by step on the connection's fields. The application is a parameter:
 each call runs its callback at most once, and App says what the callback asked for.
 */
module Tcp {
  import opened Bytes

  datatype State =
    | CLOSED | SYN_RCVD | SYN_SENT | ESTABLISHED | FIN_WAIT_1 | FIN_WAIT_2 | CLOSING | TIME_WAIT | LAST_ACK

  const RTO := 3
  const MAXRTX := 8
  const MAXSYNRTX := 3
  const TIME_WAIT_TIMEOUT := 120
  const MAXDATA := 0xffff - 40

  type Seqno = n: int | 0 <= n < TWO32

  /** Reduction modulo 2^32, by repeated subtraction to keep the proofs linear; see WrapIsModulo. */
  function Wrap(n: nat): Seqno {
    if n < TWO32 then n else Wrap(n - TWO32)
  }

  lemma {:induction false} WrapIsModulo(n: nat)
    ensures Wrap(n) == n % TWO32
  {
    if n >= TWO32 { WrapIsModulo(n - TWO32); }
  }

  /** Addition of sequence numbers. */
  function Plus(n: Seqno, k: nat): Seqno {
    Wrap(n + k)
  }

  datatype Conn = Conn(
    state: State, stopped: bool,
    rcvNxt: Seqno, sndNxt: Seqno, len: Word,
    mss: Word, initialmss: Word,
    sa: Byte, sv: Byte, rto: Byte, timer: Byte, nrtx: Byte)

  /** The control bits of a segment; other stands for the two reserved bits. */
  datatype Flags = Flags(fin: bool, syn: bool, rst: bool, psh: bool, ack: bool, urg: bool, other: bool)

  /** An incoming segment that passed the checksum test and was matched with the connection. */
  datatype Segment = Segment(flags: Flags, seqno: Seqno, ackno: Seqno, wnd: Word, data: seq<Byte>)
  {
    /** A length field of 16 bits; URG and the urgent pointer are not used. */
    predicate Valid() { |data| <= MAXDATA && !flags.urg }
  }

  /** What the application's callback does: uip_send, uip_close, uip_abort, uip_stop, uip_restart. */
  datatype App = App(slen: Word, close: bool, abort: bool, stop: bool, restart: bool)

  /** uip_flags as far as the rest of the call depends on it. */
  datatype Event = Event(ackdata: bool, newdata: bool, close: bool, abort: bool)

  /** What leaves the host, named after its control bits; data segments carry PSH and ACK. */
  datatype Reply = NoReply | SendAck | SendFinAck | SendRstAck | SendSyn | SendSynAck | SendData(len: nat)

  const SYNACK := Flags(false, true, false, false, true, false, false)

  /**
   The outcome of one call: the connection, every state assigned on the way, the bytes shown to the
   application under UIP_NEWDATA, the number of bytes rcv_nxt was advanced for, and the reply.
   */
  datatype Outcome = Outcome(conn: Conn, path: seq<State>, delivered: seq<Byte>, accepted: nat, reply: Reply)

  // ----- The application's callback -----

  /** uip_close and uip_abort overwrite uip_flags; uip_restart adds UIP_NEWDATA. */
  function AppFlags(e: Event, app: App): Event {
    var f := if app.close then Event(false, false, true, false)
             else if app.abort then Event(false, false, false, true)
             else e;
    if app.restart then f.(newdata := true) else f
  }

  /** uip_stop, which is only used on established connections, and uip_restart. */
  function AppConn(c: Conn, app: App): Conn {
    c.(stopped := if app.restart then false else c.stopped || (app.stop && c.state == ESTABLISHED))
  }

  // ----- Sending -----

  /** From label apprexmit. */
  function AppRexmit(c: Conn, e: Event, slen: Word): Reply {
    if slen > 0 && c.len > 0 then SendData(c.len)
    else if e.newdata then SendAck
    else NoReply
  }

  /** From label appsend, after the callback. */
  function AppSend(c: Conn, e: Event, slen: Word, path: seq<State>, delivered: seq<Byte>): Outcome {
    if e.abort then
      Outcome(c.(state := CLOSED, stopped := false), path + [CLOSED], delivered, |delivered|, SendRstAck)
    else if e.close then
      Outcome(c.(state := FIN_WAIT_1, stopped := false, len := 1, nrtx := 0), path + [FIN_WAIT_1],
              delivered, |delivered|, SendFinAck)
    else
      var len0 := if slen > 0 && !e.ackdata then c.len else 0;
      var send := if slen == 0 then 0 else if len0 != 0 then len0 else if slen > c.mss then c.mss else slen;
      var c1 := c.(len := if slen > 0 then send else 0, nrtx := 0);
      Outcome(c1, path, delivered, |delivered|, AppRexmit(c1, e, send))
  }

  /** The callback with the given flags, then appsend. */
  function CallAndSend(c: Conn, e: Event, app: App, path: seq<State>, delivered: seq<Byte>): Outcome {
    AppSend(AppConn(c, app), AppFlags(e, app), app.slen, path, delivered)
  }

  // ----- Input -----

  /** The round trip estimator's three bytes after a measurement; the machine's proofs allow any. */
  datatype Estimate = Estimate(sa: Byte, sv: Byte, rto: Byte)

  /** Does the segment acknowledge everything outstanding? */
  predicate Acknowledges(c: Conn, s: Segment) {
    s.flags.ack && c.len != 0 && s.ackno == Plus(c.sndNxt, c.len)
  }

  /** Sequence number, round trip estimate and timer after such an acknowledgement. */
  function TakeAck(c: Conn, s: Segment, e: Estimate): Conn {
    if !Acknowledges(c, s) then c else
    var r := if c.nrtx == 0 then e else Estimate(c.sa, c.sv, c.rto);
    c.(sndNxt := Plus(c.sndNxt, c.len), sa := r.sa, sv := r.sv, rto := r.rto, timer := r.rto)
  }

  function Unchanged(c: Conn, reply: Reply): Outcome {
    Outcome(c, [], [], 0, reply)
  }

  function InSynRcvd(c: Conn, s: Segment, acked: bool, app: App): Outcome {
    if !acked then Unchanged(c, NoReply) else
    var c1 := c.(state := ESTABLISHED, stopped := false, len := 0, rcvNxt := Plus(c.rcvNxt, |s.data|));
    CallAndSend(c1, Event(false, s.data != [], false, false), app, [ESTABLISHED], s.data)
  }

  function InSynSent(c: Conn, s: Segment, acked: bool, app: App): Outcome {
    if acked && s.flags == SYNACK then
      var c1 := c.(state := ESTABLISHED, stopped := false, len := 0, rcvNxt := Plus(s.seqno, 1));
      CallAndSend(c1, Event(false, true, false, false), app, [ESTABLISHED], [])
    else
      Unchanged(c, SendRstAck)
  }

  function InEstablished(c: Conn, s: Segment, acked: bool, app: App): Outcome {
    if s.flags.fin then
      if c.len != 0 then Unchanged(c, NoReply) else
      var c1 := AppConn(c.(rcvNxt := Plus(c.rcvNxt, 1 + |s.data|)), app);
      Outcome(c1.(state := LAST_ACK, stopped := false, len := 1, nrtx := 0), [LAST_ACK],
              s.data, |s.data|, SendFinAck)
    else
      var data := if c.stopped then [] else s.data;
      var mss := if s.wnd > c.initialmss || s.wnd == 0 then c.initialmss else s.wnd;
      var c1 := c.(rcvNxt := Plus(c.rcvNxt, |data|), mss := mss);
      if data != [] || acked then CallAndSend(c1, Event(acked, data != [], false, false), app, [], data)
      else Unchanged(c1, NoReply)
  }

  function InFinWait1(c: Conn, s: Segment, acked: bool): Outcome {
    var c1 := c.(rcvNxt := Plus(c.rcvNxt, |s.data|));
    if s.flags.fin then
      var c2 := if acked then c1.(state := TIME_WAIT, stopped := false, timer := 0, len := 0)
                else c1.(state := CLOSING, stopped := false);
      Outcome(c2.(rcvNxt := Plus(c1.rcvNxt, 1)), [c2.state], [], |s.data|, SendAck)
    else if acked then
      Outcome(c1.(state := FIN_WAIT_2, stopped := false, len := 0), [FIN_WAIT_2], [], |s.data|, NoReply)
    else
      Outcome(c1, [], [], |s.data|, if s.data != [] then SendAck else NoReply)
  }

  function InFinWait2(c: Conn, s: Segment): Outcome {
    var c1 := c.(rcvNxt := Plus(c.rcvNxt, |s.data|));
    if s.flags.fin then
      Outcome(c1.(state := TIME_WAIT, stopped := false, timer := 0, rcvNxt := Plus(c1.rcvNxt, 1)), [TIME_WAIT],
              [], |s.data|, SendAck)
    else
      Outcome(c1, [], [], |s.data|, if s.data != [] then SendAck else NoReply)
  }

  /** The switch over the state, after the acknowledgement has been dealt with. */
  function InState(c: Conn, s: Segment, acked: bool, app: App): Outcome {
    match c.state
    case CLOSED => Unchanged(c, NoReply)
    case SYN_RCVD => InSynRcvd(c, s, acked, app)
    case SYN_SENT => InSynSent(c, s, acked, app)
    case ESTABLISHED => InEstablished(c, s, acked, app)
    case FIN_WAIT_1 => InFinWait1(c, s, acked)
    case FIN_WAIT_2 => InFinWait2(c, s)
    case TIME_WAIT => Unchanged(c, SendAck)
    case CLOSING =>
      if acked then Outcome(c.(state := TIME_WAIT, stopped := false, timer := 0), [TIME_WAIT], [], 0, NoReply)
      else Unchanged(c, NoReply)
    case LAST_ACK =>
      if acked then Outcome(c.(state := CLOSED, stopped := false), [CLOSED], [], 0, NoReply)
      else Unchanged(c, NoReply)
  }

  /** From label found: one segment for a connection that is not closed. */
  function Input(c: Conn, s: Segment, app: App, e: Estimate): Outcome
    requires c.state != CLOSED
  {
    if s.flags.rst then Outcome(c.(state := CLOSED, stopped := false), [CLOSED], [], 0, NoReply)
    else if s.data != [] && s.seqno != c.rcvNxt then Unchanged(c, SendAck)
    else InState(TakeAck(c, s, e), s, Acknowledges(c, s), app)
  }

  // ----- Timer -----

  /** RTO << min(nrtx, 4) */
  function Backoff(nrtx: Byte): (t: Byte) {
    if nrtx == 0 then RTO else if nrtx == 1 then 2 * RTO else if nrtx == 2 then 4 * RTO
    else if nrtx == 3 then 8 * RTO else 16 * RTO
  }

  /** Has the last allowed retransmission been made? */
  predicate Exhausted(c: Conn) {
    c.nrtx == MAXRTX || ((c.state == SYN_SENT || c.state == SYN_RCVD) && c.nrtx == MAXSYNRTX)
  }

  /** A retransmission: each state sends again what it sent last. */
  function Retransmit(c: Conn, app: App): Outcome {
    match c.state
    case SYN_RCVD => Unchanged(c, SendSynAck)
    case SYN_SENT => Unchanged(c, SendSyn)
    case ESTABLISHED =>
      var c1 := AppConn(c, app);
      Unchanged(c1, AppRexmit(c1, AppFlags(Event(false, false, false, false), app), app.slen))
    case FIN_WAIT_1 => Unchanged(c, SendFinAck)
    case CLOSING => Unchanged(c, SendFinAck)
    case LAST_ACK => Unchanged(c, SendFinAck)
    case _ => Unchanged(c, NoReply)
  }

  /** A tick with data outstanding: count down, retransmit, or give up. */
  function TickOutstanding(c: Conn, app: App): Outcome {
    if c.timer != 0 then Unchanged(c.(timer := c.timer - 1), NoReply)
    else if Exhausted(c) then
      Outcome(c.(timer := 0xff, state := CLOSED, stopped := false), [CLOSED], [], 0, SendRstAck)
    else
      Retransmit(c.(timer := Backoff(c.nrtx), nrtx := if c.nrtx == 0xff then 0 else c.nrtx + 1), app)
  }

  /** uip_process(UIP_TIMER) */
  function Tick(c: Conn, app: App): Outcome {
    if c.state == TIME_WAIT || c.state == FIN_WAIT_2 then
      var t: Byte := if c.timer == 0xff then 0 else c.timer + 1;
      if t == TIME_WAIT_TIMEOUT then Outcome(c.(timer := t, state := CLOSED), [CLOSED], [], 0, NoReply)
      else Unchanged(c.(timer := t), NoReply)
    else if c.state == CLOSED then Unchanged(c, NoReply)
    else if c.len != 0 then TickOutstanding(c, app)
    else if c.state == ESTABLISHED then
      CallAndSend(c, Event(false, false, false, false), app, [], [])
    else Unchanged(c, NoReply)
  }

  // ----- Opening -----

  /** From label found_listen: the connection made for a SYN with sequence number irs. */
  function Accepted(irs: Seqno, iss: Seqno, mss: Word): Conn {
    Conn(SYN_RCVD, false, Plus(irs, 1), iss, 1, mss, mss, 0, 4, RTO, RTO, 0)
  }

  /** uip_connect on a slot that still holds the old connection c. */
  function Connecting(c: Conn, iss: Seqno, mss: Word): Conn {
    Conn(SYN_SENT, false, c.rcvNxt, iss, 1, mss, mss, 0, 16, RTO, 1, 0)
  }

  // ----- Runs -----

  /** Anything that can happen to a connection once it is open. */
  datatype Stimulus = Arrives(segment: Segment, app: App, estimate: Estimate) | Ticks(app: App)

  function Step(c: Conn, i: Stimulus): Outcome {
    match i
    case Arrives(s, app, e) => if c.state == CLOSED then Unchanged(c, NoReply) else Input(c, s, app, e)
    case Ticks(app) => Tick(c, app)
  }

  /** A connection with the bytes it has accepted and shown to the application since it was opened. */
  datatype View = View(conn: Conn, accepted: nat, shown: seq<Byte>)

  function Advance(v: View, i: Stimulus): View {
    var o := Step(v.conn, i);
    View(o.conn, v.accepted + o.accepted, v.shown + o.delivered)
  }

  /** The view after a run. */
  function Run(v: View, inputs: seq<Stimulus>): View {
    if inputs == [] then v else Advance(Run(v, inputs[..|inputs| - 1]), inputs[|inputs| - 1])
  }

  function Opened(c: Conn): View { View(c, 0, []) }
}
