/**
 Packets leaving uIP: the common send path of uip_process and the ICMP echo reply
 (contrib/dev/uip/uip.c), with the TCP checksum over pseudo header, header and payload
 (arch/unix/uip_arch.c).

 The 40 header bytes are an array that is filled in place; uip_appdata is the byte sequence that follows
 them on the wire, whether it lies behind the header in uip_buf or in the application's own memory.
 */
module Packet {
  import opened Bytes
  import opened Checksum

  const HDR := 40           // UIP_TCPIP_HLEN
  const PROTO_TCP := 6
  const TTL := 255
  const RECEIVE_WINDOW := 32768

  /** Total length field of the IP header. */
  function TotalLength(hdr: seq<Byte>): (n: Word)
    requires |hdr| >= HDR
  {
    0x100 * (hdr[2] as int) + hdr[3] as int
  }

  /** Unbounded sum of everything the TCP checksum covers: header, payload and pseudo header. */
  function TcpSum(hdr: seq<Byte>, payload: seq<Byte>): nat
    requires |hdr| == HDR && TotalLength(hdr) >= HDR
  {
    WordSum(hdr[20..40]) + WordSum(payload) + WordSum(hdr[12..20]) + Swap16(PROTO_TCP) + Swap16(TotalLength(hdr) - 20)
  }

  /** uip_ipchksum */
  method IpChksum(hdr: array<Byte>) returns (sum: Word)
    requires hdr.Length >= 20
    ensures sum == Fold(WordSum(hdr[..20]))
  {
    sum := Chksum(hdr[..20]);
  }

  /** The four words of source and destination address in the pseudo header. */
  method AddAddresses(hdr: array<Byte>, sum: Word, ghost total: nat) returns (sum': Word)
    requires hdr.Length == HDR && sum == Fold(total)
    ensures sum' == Fold(total + WordSum(hdr[12..20]))
  {
    sum' := AddWithCarry(sum, LoadWord(hdr[12..14]));
    sum' := AddWithCarry(sum', LoadWord(hdr[14..16]));
    sum' := AddWithCarry(sum', LoadWord(hdr[16..18]));
    sum' := AddWithCarry(sum', LoadWord(hdr[18..20]));
    ghost var h: seq<Byte> := hdr[..];
    FoldAddresses(h, total);
    assert h[12..14] == hdr[12..14] && h[14..16] == hdr[14..16] && h[16..18] == hdr[16..18] && h[18..20] == hdr[18..20];
    assert h[12..20] == hdr[12..20];
  }

  /** Protocol and length of the segment. */
  method AddProtocol(sum: Word, len: Word, ghost total: nat) returns (sum': Word)
    requires sum == Fold(total) && len >= 20
    ensures sum' == Fold(total + Swap16(PROTO_TCP) + Swap16(len - 20))
  {
    sum' := AddWithCarry(sum, Swap16(PROTO_TCP));
    FoldStep(total, Swap16(PROTO_TCP));
    var hsum := Swap16(len - 20);
    sum' := AddWithCarry(sum', hsum);
    FoldStep(total + Swap16(PROTO_TCP), hsum);
  }

  /** uip_tcpchksum */
  method TcpChksum(hdr: array<Byte>, appdata: seq<Byte>) returns (sum: Word)
    requires hdr.Length == HDR
    requires HDR <= TotalLength(hdr[..]) <= HDR + |appdata|
    ensures sum == Fold(TcpSum(hdr[..], appdata[..TotalLength(hdr[..]) - HDR]))
  {
    ghost var h: seq<Byte> := hdr[..];
    var len: Word := 0x100 * (hdr[2] as int) + hdr[3] as int;
    var payload := appdata[..len - HDR];
    var hsum := Chksum(hdr[20..40]);
    sum := Chksum(payload);
    FoldSum(WordSum(payload), WordSum(hdr[20..40]));
    sum := AddWithCarry(sum, hsum);
    ghost var total := WordSum(payload) + WordSum(hdr[20..40]);
    sum := AddAddresses(hdr, sum, total);
    sum := AddProtocol(sum, len, total + WordSum(hdr[12..20]));
    TcpSumIs(h, payload, len);
    assert hdr[20..40] == h[20..40] && hdr[12..20] == h[12..20];
  }

  lemma TcpSumIs(h: seq<Byte>, payload: seq<Byte>, len: Word)
    requires |h| == HDR && len == TotalLength(h) >= HDR
    ensures TcpSum(h, payload) ==
      WordSum(payload) + WordSum(h[20..40]) + WordSum(h[12..20]) + Swap16(PROTO_TCP) + Swap16(len - 20)
  {
  }

  /** What the TCP checksum covers, in the order of section 3.1 of RFC 793: pseudo header, header and data. */
  function Covered(h: seq<Byte>, payload: seq<Byte>): seq<Byte>
    requires |h| == HDR && TotalLength(h) >= HDR
  {
    h[12..20] + PseudoEnd(TotalLength(h) - 20) + h[20..40] + payload
  }

  /** The zero byte, the protocol and the length of the segment. */
  function PseudoEnd(len: Word): (e: seq<Byte>)
    ensures |e| == 4
  {
    [0, 6, Hi(len), Lo(len)]
  }

  lemma PseudoEndSum(len: Word)
    ensures WordSum(PseudoEnd(len)) == Swap16(PROTO_TCP) as int + Swap16(len) as int
  {
    assert PseudoEnd(len) == [0, 6] + ([Hi(len), Lo(len)] + []);
    WordSumCons(Hi(len), Lo(len), []);
    WordSumCons(0, 6, [Hi(len), Lo(len)] + []);
  }

  lemma TcpSumCovers(h: seq<Byte>, payload: seq<Byte>)
    requires |h| == HDR && TotalLength(h) >= HDR
    ensures TcpSum(h, payload) == WordSum(Covered(h, payload))
  {
    var a, e, t := h[12..20], PseudoEnd(TotalLength(h) - 20), h[20..40];
    PseudoEndSum(TotalLength(h) - 20);
    FourSums(a, e, t, payload);
  }

  lemma FourSums(a: seq<Byte>, b: seq<Byte>, d: seq<Byte>, rest: seq<Byte>)
    requires |a| % 2 == |b| % 2 == |d| % 2 == 0
    ensures WordSum(a + b + d + rest) == WordSum(a) + WordSum(b) + WordSum(d) + WordSum(rest)
  {
    WordSumAppend(a, b);
    WordSumAppend(a + b, d);
    WordSumAppend(a + b + d, rest);
  }

  /** Adding the four address words one after the other adds their part of the header. */
  lemma FoldAddresses(h: seq<Byte>, total: nat)
    requires |h| == HDR
    ensures OnesAdd(OnesAdd(OnesAdd(OnesAdd(Fold(total), LoadWord(h[12..14])), LoadWord(h[14..16])),
                            LoadWord(h[16..18])), LoadWord(h[18..20]))
            == Fold(total + WordSum(h[12..20]))
  {
    WordSumQuad(h[12..20]);
    assert h[12..20][..2] == h[12..14] && h[12..20][2..4] == h[14..16];
    assert h[12..20][4..6] == h[16..18] && h[12..20][6..8] == h[18..20];
    var w0, w1 := LoadWord(h[12..14]) as int, LoadWord(h[14..16]) as int;
    var w2, w3 := LoadWord(h[16..18]) as int, LoadWord(h[18..20]) as int;
    FoldStep(total, w0);
    FoldStep(total + w0, w1);
    FoldStep(total + w0 + w1, w2);
    FoldStep(total + w0 + w1 + w2, w3);
  }

  lemma WordSumQuad(a: seq<Byte>)
    requires |a| == 8
    ensures WordSum(a) ==
      LoadWord(a[..2]) as int + LoadWord(a[2..4]) as int + LoadWord(a[4..6]) as int + LoadWord(a[6..8]) as int
  {
    var b, c, d := a[2..], a[4..], a[6..];
    assert a == [a[0], a[1]] + b && b == [a[2], a[3]] + c && c == [a[4], a[5]] + d && d == [a[6], a[7]] + [];
    WordSumCons(a[6], a[7], []);
    WordSumCons(a[4], a[5], d);
    WordSumCons(a[2], a[3], c);
    WordSumCons(a[0], a[1], b);
  }

  /** Overwrite the bytes from offset at. */
  function Put(s: seq<Byte>, at: nat, bytes: seq<Byte>): (r: seq<Byte>)
    requires at + |bytes| <= |s|
    ensures |r| == |s|
    ensures forall i :: 0 <= i < |s| ==> r[i] == if at <= i < at + |bytes| then bytes[i - at] else s[i]
  {
    s[..at] + bytes + s[at + |bytes|..]
  }

  lemma PutKeeps(s: seq<Byte>, at: nat, bytes: seq<Byte>, lo: nat, hi: nat)
    requires at + |bytes| <= |s| && lo <= hi <= |s| && (hi <= at || at + |bytes| <= lo)
    ensures Put(s, at, bytes)[lo..hi] == s[lo..hi]
  {
  }

  method Store(hdr: array<Byte>, at: nat, bytes: seq<Byte>)
    requires at + |bytes| <= hdr.Length
    modifies hdr
    ensures hdr[..] == Put(old(hdr[..]), at, bytes)
  {
    for i := 0 to |bytes|
      invariant hdr[..] == Put(old(hdr[..]), at, bytes[..i])
    {
      hdr[at + i] := bytes[i];
    }
    assert bytes[..|bytes|] == bytes;
  }

  /** Both checksums of a packet are accepted by the receiver's test against 0xffff. */
  ghost predicate Verifies(hdr: seq<Byte>, payload: seq<Byte>)
    requires |hdr| == HDR && TotalLength(hdr) >= HDR
  {
    Fold(TcpSum(hdr, payload)) == 0xffff && Fold(WordSum(hdr[..20])) == 0xffff
  }

  /** TCP checksum with its own field taken as 0 first. */
  method FillTcpChecksum(hdr: array<Byte>, appdata: seq<Byte>)
    requires hdr.Length == HDR
    requires HDR <= TotalLength(hdr[..]) <= HDR + |appdata|
    modifies hdr
    ensures hdr[..] == Put(old(hdr[..]), 36, hdr[36..38]) && TotalLength(hdr[..]) == old(TotalLength(hdr[..]))
    ensures Fold(TcpSum(hdr[..], appdata[..TotalLength(hdr[..]) - HDR])) == 0xffff
  {
    Store(hdr, 36, [0, 0]);
    ghost var before: seq<Byte> := hdr[..];
    var sum := TcpChksum(hdr, appdata);
    var c: Word := 0xffff - sum;
    Store(hdr, 36, [Lo(c), Hi(c)]);
    TcpChecksumCompletes(before, appdata[..TotalLength(before) - HDR], c);
    assert hdr[..] == before[36 := Lo(c)][37 := Hi(c)];
  }

  lemma TcpChecksumCompletes(h: seq<Byte>, payload: seq<Byte>, c: Word)
    requires |h| == HDR && TotalLength(h) >= HDR && h[36] == h[37] == 0
    requires c == 0xffff - Fold(TcpSum(h, payload))
    ensures Fold(TcpSum(h[36 := Lo(c)][37 := Hi(c)], payload)) == 0xffff
  {
    var h' := h[36 := Lo(c)][37 := Hi(c)];
    assert h'[20..40] == h[20..40][16 := Lo(c)][17 := Hi(c)];
    WordSumUpdate(h[20..40], 16, Lo(c), Hi(c));
    assert h'[12..20] == h[12..20];
    ComplementAccepts(TcpSum(h, payload));
  }

  /** The IP header fields that are the same for every packet, and the IP checksum. */
  method FillIp(hdr: array<Byte>, ipid: Word)
    requires hdr.Length == HDR
    modifies hdr
    ensures hdr[2..4] == old(hdr[2..4]) && hdr[9] == old(hdr[9]) && hdr[12..] == old(hdr[12..])
    ensures hdr[0] == 0x45 && hdr[1] == 0 && hdr[4] == Hi(ipid) && hdr[5] == Lo(ipid) && hdr[6] == hdr[7] == 0
    ensures hdr[8] == TTL
    ensures Fold(WordSum(hdr[..20])) == 0xffff
  {
    hdr[0] := 0x45;
    hdr[1] := 0;
    hdr[6], hdr[7] := 0, 0;
    hdr[8] := TTL;
    hdr[4] := Hi(ipid);
    hdr[5] := Lo(ipid);
    Store(hdr, 10, [0, 0]);
    ghost var before: seq<Byte> := hdr[..];
    var sum := IpChksum(hdr);
    var c: Word := 0xffff - sum;
    Store(hdr, 10, [Lo(c), Hi(c)]);
    assert hdr[..20] == before[..20][10 := Lo(c)][11 := Hi(c)];
    IpChecksumCompletes(before[..20], c);
  }

  lemma IpChecksumCompletes(h: seq<Byte>, c: Word)
    requires |h| == 20 && h[0] == 0x45 && h[10] == h[11] == 0
    requires c == 0xffff - Fold(WordSum(h))
    ensures Fold(WordSum(h[10 := Lo(c)][11 := Hi(c)])) == 0xffff
  {
    WordSumUpdate(h, 10, Lo(c), Hi(c));
    WordSumZero(h);
    ComplementAccepts(WordSum(h));
  }

  method FillLengthAndTcp(hdr: array<Byte>, appdata: seq<Byte>, uipLen: Word)
    requires hdr.Length == HDR
    requires HDR <= uipLen <= HDR + |appdata|
    modifies hdr
    ensures TotalLength(hdr[..]) == uipLen
    ensures Fold(TcpSum(hdr[..], appdata[..uipLen - HDR])) == 0xffff
    ensures hdr[9] == old(hdr[9]) && hdr[12..36] == old(hdr[12..36]) && hdr[38..] == old(hdr[38..])
  {
    ghost var h: seq<Byte> := hdr[..];
    Store(hdr, 2, [Hi(uipLen), Lo(uipLen)]);
    FillTcpChecksum(hdr, appdata);
    PutsKeepFields(h, [Hi(uipLen), Lo(uipLen)], hdr[36..38]);
  }

  /**
   From label tcp_send_noconn: length, both checksums and the rest of the IP header. The packet verifies
   for every length, odd payloads included.
   */
  method SendNoConn(hdr: array<Byte>, appdata: seq<Byte>, uipLen: Word, ipid: Word) returns (ipid': Word)
    requires hdr.Length == HDR
    requires HDR <= uipLen <= HDR + |appdata|
    modifies hdr
    ensures TotalLength(hdr[..]) == uipLen
    ensures Verifies(hdr[..], appdata[..uipLen - HDR])
    ensures hdr[9] == old(hdr[9]) && hdr[12..36] == old(hdr[12..36]) && hdr[38..] == old(hdr[38..])
    ensures ipid' == if ipid == 0xffff then 0 else ipid + 1
    ensures hdr[0] == 0x45 && hdr[1] == 0 && hdr[4] == Hi(ipid') && hdr[5] == Lo(ipid') && hdr[6] == hdr[7] == 0
    ensures hdr[8] == TTL
  {
    FillLengthAndTcp(hdr, appdata, uipLen);
    ghost var h: seq<Byte> := hdr[..];
    ipid' := if ipid == 0xffff then 0 else ipid + 1;
    FillIp(hdr, ipid');
    KeepsTcpSum(h, hdr[..], appdata[..uipLen - HDR]);
  }

  lemma PutsKeepFields(h: seq<Byte>, len: seq<Byte>, chk: seq<Byte>)
    requires |h| == HDR && |len| == 2 && |chk| == 2
    ensures var f := Put(Put(h, 2, len), 36, chk);
      f[9] == h[9] && f[12..36] == h[12..36] && f[38..] == h[38..]
  {
    var g := Put(h, 2, len);
    PutKeeps(h, 2, len, 12, 36);
    PutKeeps(g, 36, chk, 12, 36);
    PutKeeps(h, 2, len, 38, 40);
    PutKeeps(g, 36, chk, 38, 40);
    assert h[38..] == h[38..40] && Put(g, 36, chk)[38..] == Put(g, 36, chk)[38..40];
  }

  /** What FillIp keeps is all that the TCP checksum covers. */
  lemma KeepsTcpSum(h: seq<Byte>, f: seq<Byte>, payload: seq<Byte>)
    requires |h| == HDR && |f| == HDR && TotalLength(h) >= HDR
    requires f[2..4] == h[2..4] && f[12..] == h[12..]
    ensures TotalLength(f) == TotalLength(h) && TcpSum(f, payload) == TcpSum(h, payload)
    ensures f[12..36] == h[12..36] && f[38..] == h[38..]
  {
    assert f[2] == f[2..4][0] && f[3] == f[2..4][1] && h[2] == h[2..4][0] && h[3] == h[2..4][1];
    assert f[20..40] == f[12..][8..28] && f[12..20] == f[12..][..8];
    assert h[20..40] == h[12..][8..28] && h[12..20] == h[12..][..8];
    assert f[12..36] == f[12..][..24] && h[12..36] == h[12..][..24];
    assert f[38..] == f[12..][26..] && h[38..] == h[12..][26..];
  }

  /** What the send path takes from the connection. */
  datatype Sender = Sender(
    rcvNxt: seq<Byte>, sndNxt: seq<Byte>, lport: seq<Byte>, rport: seq<Byte>,
    hostaddr: seq<Byte>, ripaddr: seq<Byte>, stopped: bool)
  {
    predicate Valid() {
      |rcvNxt| == 4 && |sndNxt| == 4 && |lport| == 2 && |rport| == 2 && |hostaddr| == 4 && |ripaddr| == 4
    }

    /** Bytes 12 to 24 of the header: both addresses and both ports. */
    function Endpoints(): (e: seq<Byte>)
      requires Valid()
      ensures |e| == 12
    {
      hostaddr + ripaddr + lport + rport
    }
  }

  function Window(stopped: bool): (w: seq<Byte>)
    ensures |w| == 2
  {
    if stopped then [0, 0] else [Hi(RECEIVE_WINDOW), Lo(RECEIVE_WINDOW)]
  }

  /** A header h with the sequence numbers and the protocol of the connection. */
  function WithNumbers(h: seq<Byte>, c: Sender): (r: seq<Byte>)
    requires |h| == HDR && c.Valid()
    ensures |r| == HDR
  {
    Put(Put(Put(h, 28, c.rcvNxt), 24, c.sndNxt), 9, [PROTO_TCP])
  }

  /** A header h with the ports and addresses of the connection. */
  function WithEndpoints(h: seq<Byte>, c: Sender): (r: seq<Byte>)
    requires |h| == HDR && c.Valid()
    ensures |r| == HDR
  {
    Put(Put(Put(Put(h, 20, c.lport), 22, c.rport), 12, c.hostaddr), 16, c.ripaddr)
  }

  /** A header h with the fields that label tcp_send fills in from the connection. */
  function WithFields(h: seq<Byte>, c: Sender): (r: seq<Byte>)
    requires |h| == HDR && c.Valid()
    ensures |r| == HDR
  {
    Put(WithEndpoints(WithNumbers(h, c), c), 34, Window(c.stopped))
  }

  /** From label tcp_send: addresses and sequence numbers of the connection, then the common tail. */
  method TcpSend(hdr: array<Byte>, appdata: seq<Byte>, c: Sender, uipLen: Word, ipid: Word) returns (ipid': Word)
    requires hdr.Length == HDR && c.Valid()
    requires HDR <= uipLen <= HDR + |appdata|
    modifies hdr
    ensures TotalLength(hdr[..]) == uipLen
    ensures Verifies(hdr[..], appdata[..uipLen - HDR])
    ensures hdr[9] == PROTO_TCP && hdr[38..] == old(hdr[38..])
    ensures hdr[12..36] == c.Endpoints() + c.sndNxt + c.rcvNxt + old(hdr[32..34]) + Window(c.stopped)
    ensures ipid' == if ipid == 0xffff then 0 else ipid + 1
  {
    ghost var h: seq<Byte> := hdr[..];
    Store(hdr, 28, c.rcvNxt);
    Store(hdr, 24, c.sndNxt);
    Store(hdr, 9, [PROTO_TCP]);
    Store(hdr, 20, c.lport);
    Store(hdr, 22, c.rport);
    Store(hdr, 12, c.hostaddr);
    Store(hdr, 16, c.ripaddr);
    if c.stopped {
      Store(hdr, 34, [0, 0]);
    } else {
      Store(hdr, 34, [Hi(RECEIVE_WINDOW), Lo(RECEIVE_WINDOW)]);
    }
    FieldsInWindow(h, c);
    ipid' := SendNoConn(hdr, appdata, uipLen, ipid);
  }

  lemma NumbersInPlace(h: seq<Byte>, c: Sender)
    requires |h| == HDR && c.Valid()
    ensures var r := WithNumbers(h, c);
      && r[24..28] == c.sndNxt && r[28..32] == c.rcvNxt && r[32..34] == h[32..34]
      && r[9] == PROTO_TCP && r[38..40] == h[38..40]
  {
    var a := Put(h, 28, c.rcvNxt);
    var b := Put(a, 24, c.sndNxt);
    assert a[28..32] == c.rcvNxt && b[24..28] == c.sndNxt;
    PutKeeps(a, 24, c.sndNxt, 28, 32);
    PutKeeps(b, 9, [PROTO_TCP], 24, 28);
    PutKeeps(b, 9, [PROTO_TCP], 28, 32);
    PutsKeep(h, c, 32, 34);
    PutsKeep(h, c, 38, 40);
  }

  lemma PutsKeep(h: seq<Byte>, c: Sender, lo: nat, hi: nat)
    requires |h| == HDR && c.Valid() && 32 <= lo <= hi <= HDR
    ensures WithNumbers(h, c)[lo..hi] == h[lo..hi]
  {
    var a := Put(h, 28, c.rcvNxt);
    PutKeeps(h, 28, c.rcvNxt, lo, hi);
    PutKeeps(a, 24, c.sndNxt, lo, hi);
    PutKeeps(Put(a, 24, c.sndNxt), 9, [PROTO_TCP], lo, hi);
  }

  lemma EndpointsInPlace(h: seq<Byte>, c: Sender)
    requires |h| == HDR && c.Valid()
    ensures var r := WithEndpoints(h, c); r[12..24] == c.Endpoints() && r[9] == h[9] && r[24..] == h[24..]
  {
    var a := Put(h, 20, c.lport);
    var b := Put(a, 22, c.rport);
    var d := Put(b, 12, c.hostaddr);
    assert a[20..22] == c.lport && b[22..24] == c.rport && d[12..16] == c.hostaddr;
    PutKeeps(a, 22, c.rport, 20, 22);
    PutKeeps(b, 12, c.hostaddr, 20, 22);
    PutKeeps(b, 12, c.hostaddr, 22, 24);
    var r := Put(d, 16, c.ripaddr);
    PutKeeps(d, 16, c.ripaddr, 12, 16);
    PutKeeps(d, 16, c.ripaddr, 20, 22);
    PutKeeps(d, 16, c.ripaddr, 22, 24);
    assert r[16..20] == c.ripaddr;
    assert r[12..24] == r[12..16] + r[16..20] + r[20..22] + r[22..24];
  }

  lemma FieldsInWindow(h: seq<Byte>, c: Sender)
    requires |h| == HDR && c.Valid()
    ensures WithFields(h, c)[12..36] == c.Endpoints() + c.sndNxt + c.rcvNxt + h[32..34] + Window(c.stopped)
    ensures WithFields(h, c)[9] == PROTO_TCP && WithFields(h, c)[38..] == h[38..]
  {
    var n := WithNumbers(h, c);
    var e := WithEndpoints(n, c);
    NumbersInPlace(h, c);
    EndpointsInPlace(n, c);
    InOneWindow(e, Window(c.stopped));
    PartsOfWindow(h, n, e, WithFields(h, c));
  }

  lemma PartsOfWindow(h: seq<Byte>, n: seq<Byte>, e: seq<Byte>, r: seq<Byte>)
    requires |h| == |n| == |e| == |r| == HDR
    requires n[32..34] == h[32..34] && n[38..40] == h[38..40] && e[24..] == n[24..] && r[38..] == e[38..]
    ensures e[24..34] == n[24..28] + n[28..32] + h[32..34] && r[38..] == h[38..]
  {
    assert e[24..34] == e[24..][..10] == n[24..][..10] == n[24..34];
    assert n[24..34] == n[24..28] + n[28..32] + n[32..34];
    assert e[38..] == e[24..][14..] == n[24..][14..] == n[38..40] && h[38..] == h[38..40];
  }

  lemma InOneWindow(e: seq<Byte>, w: seq<Byte>)
    requires |e| == HDR && |w| == 2
    ensures var r := Put(e, 34, w); r[12..36] == e[12..24] + e[24..34] + w && r[9] == e[9] && r[38..] == e[38..]
  {
  }

  // ----- ICMP echo -----

  const ICMP_ECHO := 8
  const ICMP_ECHO_REPLY := 0

  /** Adjust the ICMP checksum for the type going from 8 to 0: add 8 with end-around carry (bytes swapped). */
  function EchoChecksum(chk: Word): Word {
    if chk >= Swap16(0xffff - (ICMP_ECHO * 0x100)) then (chk + Swap16(ICMP_ECHO * 0x100) + 1) % 0x1_0000
    else (chk + Swap16(ICMP_ECHO * 0x100)) % 0x1_0000
  }

  /** The echo request as it was turned into a reply: type, checksum and swapped addresses. */
  function EchoReply(p: seq<Byte>): (r: seq<Byte>)
    requires |p| >= 28
    ensures |r| == |p|
  {
    var c := EchoChecksum(LoadWord(p[22..24]));
    p[..12] + p[16..20] + p[12..16] + [ICMP_ECHO_REPLY, p[21], Lo(c), Hi(c)] + p[24..]
  }

  /** The ICMP part of uip_process, from the type test to label send. */
  method EchoInPlace(buf: array<Byte>) returns (replied: bool)
    requires buf.Length >= 28
    modifies buf
    ensures replied <==> old(buf[20]) == ICMP_ECHO
    ensures buf[..] == if replied then EchoReply(old(buf[..])) else old(buf[..])
    ensures replied ==> Echoes(old(buf[..]), buf[..])
  {
    if buf[20] != ICMP_ECHO { return false; }
    ghost var p := buf[..];
    buf[20] := ICMP_ECHO_REPLY;
    var chk: Word := LoadWord(buf[22..24]);
    if chk >= Swap16(0xffff - (ICMP_ECHO * 0x100)) {
      chk := (chk + Swap16(ICMP_ECHO * 0x100) + 1) % 0x1_0000;
    } else {
      chk := (chk + Swap16(ICMP_ECHO * 0x100)) % 0x1_0000;
    }
    buf[22], buf[23] := Lo(chk), Hi(chk);

    var tmp0, tmp1 := buf[16], buf[17];
    buf[16], buf[17] := buf[12], buf[13];
    buf[12], buf[13] := tmp0, tmp1;
    tmp0, tmp1 := buf[18], buf[19];
    buf[18], buf[19] := buf[14], buf[15];
    buf[14], buf[15] := tmp0, tmp1;
    assert p[22..24] == [p[22], p[23]];
    assert buf[..] == EchoReply(p);
    EchoReplyEchoes(p);
    return true;
  }

  /** Type 0, the addresses exchanged, and all else but the checksum returned as it came (RFC 792). */
  predicate Echoes(p: seq<Byte>, r: seq<Byte>) {
    && |r| == |p| >= 28 && r[12..16] == p[16..20] && r[16..20] == p[12..16]
    && r[20] == 0 && r[21] == p[21] && r[..12] == p[..12] && r[24..] == p[24..]
  }

  lemma EchoReplyEchoes(p: seq<Byte>)
    requires |p| >= 28
    ensures Echoes(p, EchoReply(p))
  {
  }

  /** The reply's IP header keeps the checksum of the request: swapping the addresses only reorders words. */
  lemma EchoKeepsIpSum(p: seq<Byte>)
    requires |p| >= 28
    ensures WordSum(EchoReply(p)[..20]) == WordSum(p[..20])
  {
    assert EchoReply(p)[..20] == p[..12] + (p[16..20] + p[12..16]);
    assert p[..20] == p[..12] + (p[12..16] + p[16..20]);
    WordSumAppend(p[..12], p[16..20] + p[12..16]);
    WordSumAppend(p[..12], p[12..16] + p[16..20]);
    WordSumAppend(p[16..20], p[12..16]);
    WordSumAppend(p[12..16], p[16..20]);
  }

  lemma EchoChecksumAdds(chk: Word)
    ensures EchoChecksum(chk) as int == chk as int + 8 || EchoChecksum(chk) as int == chk as int + 8 - 0xffff
  {
  }

  lemma EchoIcmpSum(p: seq<Byte>)
    requires |p| >= 28 && p[20] == ICMP_ECHO
    ensures var n, m := WordSum(p[20..]), WordSum(EchoReply(p)[20..]); m == n || m == n - 0xffff
  {
    var c := EchoChecksum(LoadWord(p[22..24]));
    var rest := p[24..];
    assert p[22..24] == [p[22], p[23]];
    assert p[20..] == [p[20], p[21]] + ([p[22], p[23]] + rest);
    assert EchoReply(p)[20..] == [0, p[21]] + ([Lo(c), Hi(c)] + rest);
    IcmpSum(p[20], p[21], p[22], p[23], rest);
    IcmpSum(0, p[21], Lo(c), Hi(c), rest);
    EchoChecksumAdds(LoadWord([p[22], p[23]]));
  }

  lemma IcmpSum(b0: Byte, b1: Byte, b2: Byte, b3: Byte, rest: seq<Byte>)
    ensures WordSum([b0, b1] + ([b2, b3] + rest)) ==
            b0 as int + 0x100 * (b1 as int) + b2 as int + 0x100 * (b3 as int) + WordSum(rest)
  {
    WordSumCons(b0, b1, [b2, b3] + rest);
    WordSumCons(b2, b3, rest);
  }

  /** The one request whose reply is all zero: every byte but type and checksum is zero. */
  predicate BlankRequest(p: seq<Byte>)
    requires |p| >= 28
  {
    p[21] == 0 && p[22] == 0xf7 && p[23] == 0xff && forall i :: 24 <= i < |p| ==> p[i] == 0
  }

  /**
   A reply to a request with a valid ICMP checksum is accepted exactly when the request was not blank:
   the adjusted sum stays a multiple of 65535, but a blank request's reply sums to zero (the corner case
   of section 3 of RFC 1624).
   */
  lemma EchoReplyAccepted(p: seq<Byte>)
    requires |p| >= 28 && p[20] == ICMP_ECHO && Fold(WordSum(p[20..])) == 0xffff
    ensures WordSum(EchoReply(p)[20..]) % 0xffff == 0
    ensures Fold(WordSum(EchoReply(p)[20..])) == 0xffff <==> !BlankRequest(p)
  {
    var r := EchoReply(p);
    var n, m := WordSum(p[20..]), WordSum(r[20..]);
    EchoIcmpSum(p);
    FoldAccepts(n);
    FoldAccepts(m);
    WordSumZero(r[20..]);
    var c := EchoChecksum(LoadWord(p[22..24]));
    assert p[22..24] == [p[22], p[23]];
    assert r[20] == 0 && r[21] == p[21] && r[22] == Lo(c) && r[23] == Hi(c);
    assert forall i :: 24 <= i < |p| ==> r[i] == p[i];
    assert forall i :: 20 <= i < |p| ==> r[i] == r[20..][i - 20];
    if m == 0 {
      assert c == 0;
    }
    if BlankRequest(p) {
      assert forall i :: 0 <= i < |r[20..]| ==> r[20..][i] == r[20 + i];
    }
  }

  /** A concrete blank request with valid checksum, whose reply fails the receiver's test. */
  lemma BlankReplyRejected(ip: seq<Byte>)
    requires |ip| == 20
    ensures var p := ip + [ICMP_ECHO, 0, 0xf7, 0xff, 0, 0, 0, 0];
      Fold(WordSum(p[20..])) == 0xffff && Fold(WordSum(EchoReply(p)[20..])) == 0
  {
    var p := ip + [ICMP_ECHO, 0, 0xf7, 0xff, 0, 0, 0, 0];
    assert p[20..] == [8, 0] + ([0xf7, 0xff] + [0, 0, 0, 0]);
    WordSumCons(8, 0, [0xf7, 0xff] + [0, 0, 0, 0]);
    WordSumCons(0xf7, 0xff, [0, 0, 0, 0]);
    WordSumZero([0, 0, 0, 0]);
    assert BlankRequest(p);
    EchoReplyAccepted(p);
    FoldAccepts(WordSum(EchoReply(p)[20..]));
  }
}
