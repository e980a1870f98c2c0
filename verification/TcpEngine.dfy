/**
 The TCP machine of uIP in the form of its source (contrib/dev/uip/uip.c): a connection record whose
 fields are assigned step by step, and uip_process's TCP and timer parts as methods on it. Every method
 is proved to do to the record what the functions of Tcp.dfy say; the labels of the source are methods.
 */
module TcpEngine {
  import opened Bytes
  import opened Checksum
  import opened Tcp

  /** The encoding of the state in the low bits of tcpstateflags. */
  function Code(s: State): (n: Byte)
    ensures n < 16
  {
    match s
    case CLOSED => 0
    case SYN_RCVD => 1
    case SYN_SENT => 2
    case ESTABLISHED => 3
    case FIN_WAIT_1 => 4
    case FIN_WAIT_2 => 5
    case CLOSING => 6
    case TIME_WAIT => 7
    case LAST_ACK => 8
  }

  function Decode(n: Byte): State {
    if n == 1 then SYN_RCVD else if n == 2 then SYN_SENT else if n == 3 then ESTABLISHED
    else if n == 4 then FIN_WAIT_1 else if n == 5 then FIN_WAIT_2 else if n == 6 then CLOSING
    else if n == 7 then TIME_WAIT else if n == 8 then LAST_ACK else CLOSED
  }

  const UIP_STOPPED: Byte := 16

  /** A C int stored in a signed char. */
  function Int8(n: int): int { (n + 0x80) % 0x100 - 0x80 }

  /** Stored in an unsigned char. */
  function U8(n: int): Byte { n % 0x100 }

  /** Van Jacobson's estimator on bytes, wrap-around included. */
  function EstimateRtt(sa: Byte, sv: Byte, rto: Byte, timer: Byte): Estimate {
    var m := Int8(rto as int - timer as int);
    var m1 := Int8(m - sa as int / 8);
    var sa' := U8(sa as int + m1);
    var m2 := if m1 < 0 then Int8(-m1) else m1;
    var m3 := Int8(m2 - sv as int / 4);
    var sv' := U8(sv as int + m3);
    Estimate(sa', sv', U8(sa' as int / 8 + sv'))
  }

  lemma SmallInt8(n: int)
    requires -0x80 <= n < 0x80
    ensures Int8(n) == n
  {
  }

  lemma SmallU8(n: int)
    requires 0 <= n < 0x100
    ensures U8(n) as int == n
  {
  }

  /** An eighth of x after moving x by the difference between m and that. */
  lemma EighthMoves(x: Byte, m: nat)
    requires m <= 31
    ensures var y := x as int + (m - x as int / 8);
      && 0 <= y < 0x100
      && (m > x as int / 8 ==> x as int / 8 <= y / 8 <= m)
      && (m < x as int / 8 ==> m <= y / 8 <= x as int / 8)
  {
    var q, r := x as int / 8, x as int % 8;
    assert x as int == 8 * q + r;
  }

  lemma QuarterMoves(x: Byte, d: nat)
    requires d <= 31
    ensures 0 <= x as int + (d - x as int / 4) < 0x100
    ensures x < 128 ==> x as int + (d - x as int / 4) < 128
  {
    assert x as int == 4 * (x as int / 4) + x as int % 4;
  }

  /** On round trips of up to 31 ticks nothing wraps around but the time-out. */
  lemma EstimateIsExact(sa: Byte, sv: Byte, rto: Byte, timer: Byte)
    requires timer <= rto <= timer as int + 31
    ensures var e, err := EstimateRtt(sa, sv, rto, timer), rto as int - timer as int - sa as int / 8;
      && e.sa as int == sa as int + err && e.sv as int == sv as int + (if err < 0 then -err else err) - sv as int / 4
      && e.rto == U8(e.sa as int / 8 + e.sv)
  {
    var m := rto as int - timer as int;
    var err := m - sa as int / 8;
    var d := if err < 0 then -err else err;
    EighthMoves(sa, m);
    QuarterMoves(sv, d);
    SmallInt8(m);
    SmallInt8(err);
    SmallInt8(-err);
    SmallInt8(d - sv as int / 4);
    SmallU8(sa as int + err);
    SmallU8(sv as int + (d - sv as int / 4));
  }

  lemma Tracks(sa: Byte, sv: Byte, m: nat, e: Estimate)
    requires m <= 31 && e.sa as int == sa as int + (m - sa as int / 8) && e.rto == U8(e.sa as int / 8 + e.sv)
    requires
      var d := if m < sa as int / 8 then sa as int / 8 - m else m - sa as int / 8;
      e.sv as int == sv as int + (d - sv as int / 4)
    ensures m > sa as int / 8 ==> e.sa > sa && sa as int / 8 <= e.sa as int / 8 <= m
    ensures m == sa as int / 8 ==> e.sa == sa && e.sv as int == sv as int - sv as int / 4
    ensures m < sa as int / 8 ==> e.sa < sa && m <= e.sa as int / 8 <= sa as int / 8
    ensures sv < 128 ==> e.sv < 128 && e.rto as int == e.sa as int / 8 + e.sv
  {
    EighthMoves(sa, m);
    QuarterMoves(sv, if m < sa as int / 8 then sa as int / 8 - m else m - sa as int / 8);
  }

  /**
   For round trips of up to 31 ticks the estimate sa / 8 moves towards the measured time and not beyond it, stays
   if it agrees, and with a deviation of up to 31 ticks the time-out is estimate plus deviation, without wrap-around.
   */
  lemma EstimateTracks(sa: Byte, sv: Byte, rto: Byte, timer: Byte)
    requires timer <= rto <= timer as int + 31
    ensures var e, m := EstimateRtt(sa, sv, rto, timer), rto as int - timer as int;
      && (m > sa as int / 8 ==> e.sa > sa && sa as int / 8 <= e.sa as int / 8 <= m)
      && (m == sa as int / 8 ==> e.sa == sa && e.sv as int == sv as int - sv as int / 4)
      && (m < sa as int / 8 ==> e.sa < sa && m <= e.sa as int / 8 <= sa as int / 8)
      && (sv < 128 ==> e.sv < 128 && e.rto as int == e.sa as int / 8 + e.sv)
  {
    EstimateIsExact(sa, sv, rto, timer);
    Tracks(sa, sv, rto as int - timer as int, EstimateRtt(sa, sv, rto, timer));
  }

  /** struct uip_conn as far as TCP works on it. */
  class Connection {
    const rcvNxt: array<Byte>
    const sndNxt: array<Byte>
    const acc32: array<Byte>         // uip_acc32, a global of the source
    var len: Word
    var mss: Word
    var initialmss: Word
    var sa: Byte
    var sv: Byte
    var rto: Byte
    var tcpstateflags: Byte
    var timer: Byte
    var nrtx: Byte

    ghost const Repr: set<object> := {this, rcvNxt, sndNxt, acc32}

    ghost predicate Valid()
      reads this
    {
      && rcvNxt.Length == 4 && sndNxt.Length == 4 && acc32.Length == 4
      && rcvNxt != sndNxt && rcvNxt != acc32 && sndNxt != acc32
      && (tcpstateflags <= 8 || tcpstateflags == UIP_STOPPED + Code(ESTABLISHED))
    }

    /** The record as a value. */
    ghost function Value(): Conn
      requires Valid()
      reads this, rcvNxt, sndNxt
    {
      Conn(Decode(tcpstateflags % 16), tcpstateflags >= UIP_STOPPED, Be32(rcvNxt[..]), Be32(sndNxt[..]), len,
           mss, initialmss, sa, sv, rto, timer, nrtx)
    }

    /** uip_add_rcv_nxt */
    method AddRcvNxt(n: Word)
      requires Valid()
      modifies rcvNxt, acc32
      ensures Valid() && Value() == old(Value()).(rcvNxt := Plus(old(Value()).rcvNxt, n))
    {
      WrapIsModulo(Be32(rcvNxt[..]) + n);
      Add32(rcvNxt, n, acc32);
      rcvNxt[0] := acc32[0];
      rcvNxt[1] := acc32[1];
      rcvNxt[2] := acc32[2];
      rcvNxt[3] := acc32[3];
      assert rcvNxt[..] == acc32[..];
    }

    /** UIP_APPCALL with uip_flags e: the callback changes uip_flags, uip_slen and the stop bit. */
    method AppCall(e: Event, app: App) returns (e': Event, slen: Word)
      requires Valid()
      modifies this`tcpstateflags
      ensures Valid() && Value() == AppConn(old(Value()), app)
      ensures e' == AppFlags(e, app) && slen == app.slen
    {
      e', slen := e, app.slen;
      if app.stop && tcpstateflags == Code(ESTABLISHED) {
        tcpstateflags := tcpstateflags + UIP_STOPPED;
      }
      if app.close {
        e' := Event(false, false, true, false);
      } else if app.abort {
        e' := Event(false, false, false, true);
      }
      if app.restart {
        e' := e'.(newdata := true);
        if tcpstateflags >= UIP_STOPPED {
          tcpstateflags := tcpstateflags - UIP_STOPPED;
        }
      }
    }

    /** From label apprexmit. */
    method Rexmit(e: Event, slen: Word) returns (reply: Reply)
      requires Valid()
      ensures reply == AppRexmit(Value(), e, slen)
    {
      if slen > 0 && len > 0 { return SendData(len); }
      if e.newdata { return SendAck; }
      return NoReply;
    }

    /** From label appsend. */
    method Send(e: Event, appLen: Word, ghost path0: seq<State>, ghost shown: seq<Byte>)
      returns (reply: Reply, ghost path: seq<State>)
      requires Valid()
      modifies this
      ensures Valid()
      ensures Outcome(Value(), path, shown, |shown|, reply) == AppSend(old(Value()), e, appLen, path0, shown)
    {
      path := path0;
      var slen := appLen;
      if e.abort {
        tcpstateflags := Code(CLOSED);
        path := path + [CLOSED];
        return SendRstAck, path;
      }
      if e.close {
        len := 1;
        tcpstateflags := Code(FIN_WAIT_1);
        path := path + [FIN_WAIT_1];
        nrtx := 0;
        return SendFinAck, path;
      }
      if slen > 0 {
        if e.ackdata {
          len := 0;
        }
        if len == 0 {
          if slen > mss {
            slen := mss;
          }
          len := slen;
        } else {
          slen := len;
        }
      } else {
        len := 0;
      }
      nrtx := 0;
      reply := Rexmit(e, slen);
    }

    /** The acknowledgement part of label found: is everything outstanding acknowledged? */
    method AckInput(s: Segment) returns (acked: bool)
      requires Valid()
      modifies Repr
      ensures Valid()
      ensures acked == (s.flags.ack && old(len) != 0 && s.ackno == (old(Be32(sndNxt[..])) + old(len)) % TWO32)
      ensures Be32(sndNxt[..]) == if acked then s.ackno else old(Be32(sndNxt[..]))
      ensures acked == Acknowledges(old(Value()), s)
      ensures Value() == TakeAck(old(Value()), s, EstimateRtt(old(sa), old(sv), old(rto), old(timer)))
    {
      if !s.flags.ack || len == 0 { return false; }
      WrapIsModulo(Be32(sndNxt[..]) + len);
      Add32(sndNxt, len, acc32);
      if Be32(acc32[..]) != s.ackno { return false; }
      sndNxt[0] := acc32[0];
      sndNxt[1] := acc32[1];
      sndNxt[2] := acc32[2];
      sndNxt[3] := acc32[3];
      assert sndNxt[..] == acc32[..];
      if nrtx == 0 {
        var e := EstimateRtt(sa, sv, rto, timer);
        sa, sv, rto := e.sa, e.sv, e.rto;
      }
      timer := rto;
      return true;
    }

    /** case SYN_RCVD and case SYN_SENT once the connection is established, down to appsend. */
    method Established(newdata: bool, app: App, ghost shown: seq<Byte>) returns (reply: Reply, ghost path: seq<State>)
      requires Valid()
      modifies this
      ensures Valid()
      ensures Outcome(Value(), path, shown, |shown|, reply) ==
        CallAndSend(old(Value()).(state := ESTABLISHED, stopped := false, len := 0),
                    Event(false, newdata, false, false), app, [ESTABLISHED], shown)
    {
      tcpstateflags := Code(ESTABLISHED);
      len := 0;
      var e, slen := AppCall(Event(false, newdata, false, false), app);
      reply, path := Send(e, slen, [ESTABLISHED], shown);
    }

    /** case ESTABLISHED with the FIN bit: close our side at once unless data are outstanding. */
    method EstablishedFin(s: Segment, acked: bool, app: App)
      returns (reply: Reply, shown: seq<Byte>, ghost path: seq<State>)
      requires Valid() && s.Valid() && Value().state == ESTABLISHED && s.flags.fin
      modifies Repr
      ensures Valid()
      ensures Outcome(Value(), path, shown, |shown|, reply) == InEstablished(old(Value()), s, acked, app)
    {
      if len != 0 { return NoReply, [], []; }
      AddRcvNxt(1 + |s.data|);
      var e, slen := AppCall(Event(false, |s.data| > 0, true, false), app);
      len := 1;
      tcpstateflags := Code(LAST_ACK);
      nrtx := 0;
      return SendFinAck, s.data, [LAST_ACK];
    }

    /** case ESTABLISHED. The bytes shown to the application are the segment's data or nothing. */
    method EstablishedInput(s: Segment, acked: bool, app: App)
      returns (reply: Reply, shown: seq<Byte>, ghost path: seq<State>)
      requires Valid() && s.Valid() && Value().state == ESTABLISHED
      modifies Repr
      ensures Valid()
      ensures Outcome(Value(), path, shown, |shown|, reply) == InEstablished(old(Value()), s, acked, app)
    {
      if s.flags.fin {
        reply, shown, path := EstablishedFin(s, acked, app);
        return;
      }
      path, shown := [], [];
      var e := Event(acked, false, false, false);
      if |s.data| > 0 && tcpstateflags < UIP_STOPPED {
        e := e.(newdata := true);
        shown := s.data;
        AddRcvNxt(|s.data|);
      } else {
        PlusZero(Be32(rcvNxt[..]));
      }
      var tmp16 := s.wnd;
      if tmp16 > initialmss || tmp16 == 0 {
        tmp16 := initialmss;
      }
      mss := tmp16;
      if e.newdata || e.ackdata {
        var slen;
        e, slen := AppCall(e, app);
        reply, path := Send(e, slen, [], shown);
      } else {
        reply := NoReply;
      }
    }

    lemma PlusZero(n: Seqno)
      ensures Plus(n, 0) == n
    {
    }

    /** "if(uip_len > 0) uip_add_rcv_nxt(uip_len)" */
    method TakeSilently(s: Segment)
      requires Valid() && s.Valid()
      modifies rcvNxt, acc32
      ensures Valid() && Value() == old(Value()).(rcvNxt := Plus(old(Value()).rcvNxt, |s.data|))
    {
      if |s.data| > 0 {
        AddRcvNxt(|s.data|);
      } else {
        PlusZero(Be32(rcvNxt[..]));
      }
    }

    /** Count the peer's FIN and tell the application. */
    method TakeFin(app: App)
      requires Valid() && tcpstateflags < UIP_STOPPED && tcpstateflags != Code(ESTABLISHED)
      modifies this`tcpstateflags, rcvNxt, acc32
      ensures Valid() && Value() == old(Value()).(rcvNxt := Plus(old(Value()).rcvNxt, 1))
    {
      AddRcvNxt(1);
      var e, slen := AppCall(Event(false, false, true, false), app);
    }

    /** The peer's FIN in FIN_WAIT_1: both sides are done, or ours is still to be acknowledged. */
    method FinInFinWait1(acked: bool) returns (path: seq<State>)
      requires Valid()
      modifies this
      ensures Valid() && tcpstateflags < UIP_STOPPED && tcpstateflags != Code(ESTABLISHED)
      ensures acked ==>
        path == [TIME_WAIT] && Value() == old(Value()).(state := TIME_WAIT, stopped := false, timer := 0, len := 0)
      ensures !acked ==> path == [CLOSING] && Value() == old(Value()).(state := CLOSING, stopped := false)
    {
      if acked {
        tcpstateflags := Code(TIME_WAIT);
        timer := 0;
        len := 0;
      } else {
        tcpstateflags := Code(CLOSING);
      }
      path := [Decode(tcpstateflags)];
    }

    /** case FIN_WAIT_1 */
    method FinWait1Input(s: Segment, acked: bool, app: App) returns (reply: Reply, ghost path: seq<State>)
      requires Valid() && s.Valid() && Value().state == FIN_WAIT_1
      modifies Repr
      ensures Valid()
      ensures Outcome(Value(), path, [], |s.data|, reply) == InFinWait1(old(Value()), s, acked)
    {
      TakeSilently(s);
      if s.flags.fin {
        path := FinInFinWait1(acked);
        TakeFin(app);
        return SendAck, path;
      } else if acked {
        tcpstateflags := Code(FIN_WAIT_2);
        len := 0;
        return NoReply, [FIN_WAIT_2];
      }
      return if |s.data| > 0 then SendAck else NoReply, [];
    }

    /** case FIN_WAIT_2 */
    method FinWait2Input(s: Segment, app: App) returns (reply: Reply, ghost path: seq<State>)
      requires Valid() && s.Valid() && Value().state == FIN_WAIT_2
      modifies Repr
      ensures Valid()
      ensures Outcome(Value(), path, [], |s.data|, reply) == InFinWait2(old(Value()), s)
    {
      TakeSilently(s);
      if s.flags.fin {
        tcpstateflags := Code(TIME_WAIT);
        timer := 0;
        TakeFin(app);
        return SendAck, [TIME_WAIT];
      }
      return if |s.data| > 0 then SendAck else NoReply, [];
    }

    /** case SYN_RCVD */
    method SynRcvdInput(s: Segment, acked: bool, app: App)
      returns (reply: Reply, shown: seq<Byte>, ghost path: seq<State>)
      requires Valid() && s.Valid() && Value().state == SYN_RCVD
      modifies Repr
      ensures Valid()
      ensures Outcome(Value(), path, shown, |shown|, reply) == InSynRcvd(old(Value()), s, acked, app)
    {
      if !acked { return NoReply, [], []; }
      TakeSilently(s);
      shown := s.data;
      reply, path := Established(|s.data| > 0, app, shown);
    }

    /** case SYN_SENT */
    method SynSentInput(s: Segment, acked: bool, app: App) returns (reply: Reply, ghost path: seq<State>)
      requires Valid() && Value().state == SYN_SENT
      modifies Repr
      ensures Valid()
      ensures Outcome(Value(), path, [], 0, reply) == InSynSent(old(Value()), s, acked, app)
    {
      if !acked || s.flags != SYNACK { return SendRstAck, []; }
      var seqno := ToBe32(s.seqno);
      rcvNxt[0] := seqno[0];
      rcvNxt[1] := seqno[1];
      rcvNxt[2] := seqno[2];
      rcvNxt[3] := seqno[3];
      assert rcvNxt[..] == seqno;
      AddRcvNxt(1);
      reply, path := Established(true, app, []);
    }

    /** case CLOSING and case LAST_ACK: the acknowledgement of our FIN moves on. */
    method FinAcked(acked: bool, app: App) returns (ghost path: seq<State>)
      requires Valid() && (Value().state == CLOSING || Value().state == LAST_ACK)
      modifies this
      ensures Valid()
      ensures !acked ==> path == [] && Value() == old(Value())
      ensures acked && old(Value()).state == CLOSING ==>
        path == [TIME_WAIT] && Value() == old(Value()).(state := TIME_WAIT, stopped := false, timer := 0)
      ensures acked && old(Value()).state == LAST_ACK ==>
        path == [CLOSED] && Value() == old(Value()).(state := CLOSED, stopped := false)
    {
      path := [];
      if !acked { return; }
      if tcpstateflags == Code(CLOSING) {
        tcpstateflags := Code(TIME_WAIT);
        timer := 0;
        return [TIME_WAIT];
      }
      tcpstateflags := Code(CLOSED);
      var e, slen := AppCall(Event(false, false, true, false), app);
      return [CLOSED];
    }

    /** The switch over the state, after the acknowledgement has been dealt with. */
    method Dispatch(s: Segment, acked: bool, app: App)
      returns (reply: Reply, shown: seq<Byte>, ghost accepted: nat, ghost path: seq<State>)
      requires Valid() && s.Valid() && Value().state != CLOSED
      modifies Repr
      ensures Valid()
      ensures Outcome(Value(), path, shown, accepted, reply) == InState(old(Value()), s, acked, app)
    {
      shown, accepted, path, reply := [], 0, [], NoReply;
      match Decode(tcpstateflags % 16)
      case CLOSED =>
      case SYN_RCVD =>
        reply, shown, path := SynRcvdInput(s, acked, app);
        accepted := |shown|;
      case SYN_SENT =>
        reply, path := SynSentInput(s, acked, app);
      case ESTABLISHED =>
        reply, shown, path := EstablishedInput(s, acked, app);
        accepted := |shown|;
      case FIN_WAIT_1 =>
        reply, path := FinWait1Input(s, acked, app);
        accepted := |s.data|;
      case FIN_WAIT_2 =>
        reply, path := FinWait2Input(s, app);
        accepted := |s.data|;
      case TIME_WAIT =>
        reply := SendAck;
      case CLOSING =>
        path := FinAcked(acked, app);
      case LAST_ACK =>
        path := FinAcked(acked, app);
    }

    /** From label found. */
    method Found(s: Segment, app: App)
      returns (reply: Reply, shown: seq<Byte>, ghost accepted: nat, ghost path: seq<State>)
      requires Valid() && s.Valid() && Value().state != CLOSED
      modifies Repr
      ensures Valid()
      ensures Outcome(Value(), path, shown, accepted, reply) ==
        Tcp.Input(old(Value()), s, app, EstimateRtt(old(sa), old(sv), old(rto), old(timer)))
    {
      if s.flags.rst {
        tcpstateflags := Code(CLOSED);
        var e, slen := AppCall(Event(false, false, false, true), app);
        return NoReply, [], 0, [CLOSED];
      }
      Be32Injective(ToBe32(s.seqno), rcvNxt[..]);
      if |s.data| > 0 && ToBe32(s.seqno) != rcvNxt[..] { return SendAck, [], 0, []; }
      var acked := AckInput(s);
      reply, shown, accepted, path := Dispatch(s, acked, app);
    }

    /** The retransmission itself: each state repeats what it sent last. */
    method TimerRexmit(app: App) returns (reply: Reply)
      requires Valid()
      modifies this`tcpstateflags
      ensures Valid()
      ensures Outcome(Value(), [], [], 0, reply) == Retransmit(old(Value()), app)
    {
      reply := NoReply;
      match Decode(tcpstateflags % 16)
      case SYN_RCVD => reply := SendSynAck;
      case SYN_SENT => reply := SendSyn;
      case ESTABLISHED =>
        var e, slen := AppCall(Event(false, false, false, false), app);
        reply := Rexmit(e, slen);
      case FIN_WAIT_1 => reply := SendFinAck;
      case CLOSING => reply := SendFinAck;
      case LAST_ACK => reply := SendFinAck;
      case _ =>
    }

    method CloseAndTell(app: App)
      requires Valid()
      modifies this`tcpstateflags
      ensures Valid() && Value() == old(Value()).(state := CLOSED, stopped := false)
    {
      tcpstateflags := Code(CLOSED);
      var e, slen := AppCall(Event(false, false, false, false), app);
    }

    /** timer-- on an unsigned byte: 0 becomes 255. */
    method CountDown() returns (expired: bool)
      requires Valid()
      modifies this`timer
      ensures Valid() && expired == (old(timer) == 0)
      ensures Value() == old(Value()).(timer := if old(timer) == 0 then 0xff else old(timer) - 1)
    {
      expired := timer == 0;
      timer := if timer == 0 then 0xff else timer - 1;
    }

    /** A tick with data outstanding. */
    method TimerOutstanding(app: App) returns (reply: Reply, ghost path: seq<State>)
      requires Valid() && Value().state != CLOSED
      modifies this
      ensures Valid()
      ensures Outcome(Value(), path, [], 0, reply) == TickOutstanding(old(Value()), app)
    {
      var expired := CountDown();
      if !expired { return NoReply, []; }
      if nrtx == MAXRTX ||
         ((tcpstateflags == Code(SYN_SENT) || tcpstateflags == Code(SYN_RCVD)) && nrtx == MAXSYNRTX) {
        CloseAndTell(app);
        return SendRstAck, [CLOSED];
      }
      timer := Backoff(nrtx);
      nrtx := Increment(nrtx);
      reply := TimerRexmit(app);
      path := [];
    }

    /** uip_process(UIP_TIMER) */
    method Timer(app: App) returns (reply: Reply, ghost path: seq<State>)
      requires Valid()
      modifies this
      ensures Valid()
      ensures Outcome(Value(), path, [], 0, reply) == Tick(old(Value()), app)
    {
      reply, path := NoReply, [];
      if tcpstateflags == Code(TIME_WAIT) || tcpstateflags == Code(FIN_WAIT_2) {
        timer := Increment(timer);
        if timer == TIME_WAIT_TIMEOUT {
          tcpstateflags := Code(CLOSED);
          path := [CLOSED];
        }
      } else if tcpstateflags != Code(CLOSED) {
        if len != 0 {
          reply, path := TimerOutstanding(app);
        } else if tcpstateflags % 16 == Code(ESTABLISHED) {
          var e, slen := AppCall(Event(false, false, false, false), app);
          reply, path := Send(e, slen, [], []);
        }
      }
    }
  }
}
