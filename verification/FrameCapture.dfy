/** Picking DNS responses out of Ethernet frames: the header arithmetic of tc_dns_observer. */
module FrameCapture {
  import opened Bytes

  const ETH_HDR_LEN := 14
  const IP_HDR_MINLEN := 20
  const UDP_HDR_LEN := 8
  const TCP_HDR_MINLEN := 20
  const DNS_TCP_LEN_PREFIX := 2
  const MAX_DNS_MSG_SIZE := 512
  const DNS_HDR_MIN_LEN := 12
  const PROTO_UDP: byte := 17
  const PROTO_TCP: byte := 6
  const DNS_PORT := 53

  /** A frame as the kernel holds it: its length is a 32-bit number. */
  type Frame = f: seq<byte> | |f| < 0x1_0000_0000

  // ---------- Specification ----------

  /** The QR bit is set and the answer count is not zero: section 4.1.1 of RFC 1035. */
  predicate IsResponse(msg: seq<byte>) {
    |msg| >= DNS_HDR_MIN_LEN && msg[2] >= 0x80 && (msg[6] != 0 || msg[7] != 0)
  }

  function TransportOffset(f: Frame): nat
    requires |f| > ETH_HDR_LEN
  {
    ETH_HDR_LEN + 4 * (f[ETH_HDR_LEN] % 16)
  }

  /** An IPv4 header of legal length, over UDP or TCP, from source port 53. */
  predicate FromDnsPort(f: Frame) {
    && |f| > ETH_HDR_LEN + 9
    && TransportOffset(f) >= ETH_HDR_LEN + IP_HDR_MINLEN
    && (f[ETH_HDR_LEN + 9] == PROTO_UDP || f[ETH_HDR_LEN + 9] == PROTO_TCP)
    && TransportOffset(f) + 2 <= |f|
    && Be16(f, TransportOffset(f)) == DNS_PORT
  }

  /** Where the DNS message of a frame starts, if its headers are those of a DNS answer. */
  function PayloadOffset(f: Frame): (r: Option<nat>)
    ensures r.Some? ==> r.value <= 136 && r.value < |f|
  {
    if !FromDnsPort(f) then None
    else
      var t := TransportOffset(f);
      if f[ETH_HDR_LEN + 9] == PROTO_UDP then
        if t + UDP_HDR_LEN < |f| then Some(t + UDP_HDR_LEN) else None
      else if t + 12 >= |f| then None
      else
        var hdr := 4 * (f[t + 12] / 16);
        if hdr >= TCP_HDR_MINLEN && t + hdr + DNS_TCP_LEN_PREFIX < |f| then Some(t + hdr + DNS_TCP_LEN_PREFIX)
        else None
  }

  /** The length of the frame behind the headers, modulo 1024. */
  function PayloadLength(f: Frame): (n: nat)
    requires PayloadOffset(f).Some?
    ensures PayloadOffset(f).value + n <= |f|
  {
    (|f| - PayloadOffset(f).value) % (2 * MAX_DNS_MSG_SIZE)
  }

  /** The headers are those of a DNS answer and the length modulo 1024 lies between 12 and 512. */
  predicate SizeAccepted(f: Frame) {
    PayloadOffset(f).Some? && DNS_HDR_MIN_LEN <= PayloadLength(f) <= MAX_DNS_MSG_SIZE
  }

  function Payload(f: Frame): (msg: seq<byte>)
    requires PayloadOffset(f).Some?
    ensures |msg| == PayloadLength(f)
  {
    f[PayloadOffset(f).value..PayloadOffset(f).value + PayloadLength(f)]
  }

  /** The bytes captured from a frame: the tail behind the headers, cut to its length modulo 1024. */
  function Captured(f: Frame): (r: Option<seq<byte>>)
    ensures r.Some? ==> DNS_HDR_MIN_LEN <= |r.value| <= MAX_DNS_MSG_SIZE && IsResponse(r.value)
  {
    if SizeAccepted(f) && IsResponse(Payload(f)) then Some(Payload(f)) else None
  }

  // ---------- The code's arithmetic ----------

  /** bpf_skb_load_bytes: fails unless all the bytes are in the frame. */
  function Load(f: Frame, off: nat, n: nat): Option<seq<byte>> {
    if off + n <= |f| then Some(f[off..off + n]) else None
  }

  /** Assignment to a 16-bit variable. */
  function U16(n: nat): uint16 {
    n % 0x1_0000
  }

  /** is_valid_dns_response */
  predicate IsValidDnsResponse(buf: seq<byte>, len: uint32)
    requires len <= |buf|
    ensures IsValidDnsResponse(buf, len) <==> IsResponse(buf[..len])
  {
    if len < DNS_HDR_MIN_LEN then false
    else
      var flagsHi := buf[2];
      if flagsHi / 0x80 % 2 == 0 then false
      else
        var ancount := U16(256 * (buf[6] as int)) + buf[7];
        ancount != 0
  }

  datatype Window = Reject | Window(offset: uint16, len: uint32)

  /** The hook's first three loads: IPv4 header length, protocol and source port. */
  method ReadHeaders(f: Frame) returns (ok: bool, ipProto: byte, transportOffset: uint16)
    ensures ok <==> FromDnsPort(f)
    ensures ok ==> ipProto == f[ETH_HDR_LEN + 9] && transportOffset == TransportOffset(f)
  {
    ok, ipProto, transportOffset := false, 0, 0;
    var ihl := Load(f, ETH_HDR_LEN, 1);
    if ihl.None? { return; }
    var ipHdrLen := U16((ihl.value[0] % 16) * 4);
    if ipHdrLen < IP_HDR_MINLEN { return; }

    var proto := Load(f, ETH_HDR_LEN + 9, 1);
    if proto.None? { return; }
    ipProto := proto.value[0];
    if ipProto != PROTO_UDP && ipProto != PROTO_TCP { return; }

    transportOffset := U16(ETH_HDR_LEN + ipHdrLen);
    var port := Load(f, transportOffset, 2);
    if port.None? { return; }
    if Be16(port.value, 0) != DNS_PORT { return; }
    ok := true;
  }

  /** The length of the transport header, read from the data offset field for TCP. */
  method ReadTransportLength(f: Frame, ipProto: byte, transportOffset: uint16) returns (ok: bool, len: uint16)
    requires FromDnsPort(f) && ipProto == f[ETH_HDR_LEN + 9] && transportOffset == TransportOffset(f)
    ensures ok ==> len <= 60
    ensures ipProto == PROTO_UDP ==> ok && len == UDP_HDR_LEN
    ensures ipProto == PROTO_TCP ==>
              (ok <==> transportOffset + 12 < |f| && 4 * (f[transportOffset + 12] / 16) >= TCP_HDR_MINLEN)
    ensures ipProto == PROTO_TCP && ok ==> len == 4 * (f[transportOffset + 12] / 16)
  {
    ok, len := true, UDP_HDR_LEN;
    if ipProto != PROTO_UDP {
      var doff := Load(f, transportOffset + 12, 1);
      if doff.None? { return false, 0; }
      assert doff.value[0] == f[transportOffset + 12];
      len := U16(doff.value[0] / 16 * 4);
      if len < TCP_HDR_MINLEN { return false, 0; }
    }
  }

  /** The hook up to the ring reservation: where the payload lies and how much of it to copy. All offsets are held in
      16-bit variables; none of them wraps. */
  method LocatePayload(f: Frame) returns (w: Window)
    ensures w == if SizeAccepted(f) then Window(PayloadOffset(f).value, PayloadLength(f)) else Reject
  {
    var ok, ipProto, transportOffset := ReadHeaders(f);
    if !ok { return Reject; }
    var transportHdrLen;
    ok, transportHdrLen := ReadTransportLength(f, ipProto, transportOffset);
    if !ok { return Reject; }
    var dnsPrefix := if ipProto == PROTO_TCP then DNS_TCP_LEN_PREFIX else 0;
    var payloadOffset := U16(transportOffset + transportHdrLen + dnsPrefix);
    if payloadOffset >= |f| { return Reject; }

    var payloadLen := |f| - payloadOffset;
    payloadLen := payloadLen % (2 * MAX_DNS_MSG_SIZE);
    if payloadLen < DNS_HDR_MIN_LEN || payloadLen > MAX_DNS_MSG_SIZE { return Reject; }
    w := Window(payloadOffset, payloadLen);
  }

  /** The copy of the payload into the record: it never fails. */
  method LoadPayload(f: Frame, w: Window) returns (msg: seq<byte>)
    requires SizeAccepted(f) && w == Window(PayloadOffset(f).value, PayloadLength(f))
    ensures msg == Payload(f) && |msg| == w.len
    ensures IsValidDnsResponse(msg, w.len) <==> Captured(f).Some?
  {
    var loaded := Load(f, w.offset, w.len);
    assert loaded.Some?;
    msg := loaded.value;
    assert msg[..w.len] == msg;
  }

  // ---------- What capture means for packets ----------

  /** An IPv4 header (section 3.1 of RFC 791) of protocol `proto`. */
  predicate IpHeader(ip: seq<byte>, proto: byte) {
    |ip| >= 20 && |ip| == 4 * (ip[0] % 16) && ip[9] == proto
  }

  predicate DnsSourcePort(transport: seq<byte>) {
    |transport| >= 2 && transport[0] == 0 && transport[1] == 53
  }

  /** A TCP header (section 3.1 of RFC 9293), options included. */
  predicate TcpHeader(tcp: seq<byte>) {
    |tcp| >= 20 && |tcp| == 4 * (tcp[12] / 16)
  }

  /** What is captured of a DNS message: all of it up to 512 bytes, nothing of 513 to 1023, and past that a prefix of
      the length modulo 1024. */
  function Kept(dns: seq<byte>): Option<seq<byte>> {
    var n := |dns| % 1024;
    if n <= 512 && IsResponse(dns[..n]) then Some(dns[..n]) else None
  }

  /** The header of a DNS message: section 4.1.1 of RFC 1035. */
  datatype DnsHeader = DnsHeader(id: uint16, flags: uint16, questions: uint16, answers: uint16, authorities: uint16,
                                 additional: uint16)

  function EncodeDnsHeader(h: DnsHeader): (b: seq<byte>)
    ensures |b| == 12
  {
    Len16(h.id) + Len16(h.flags) + Len16(h.questions) + Len16(h.answers) + Len16(h.authorities) + Len16(h.additional)
  }

  /** A message is taken for a response exactly when the first bit of its flags is set and it has answers. */
  lemma {:induction false} ResponseIff(h: DnsHeader, rest: seq<byte>)
    ensures IsResponse(EncodeDnsHeader(h) + rest) <==> h.flags >= 0x8000 && h.answers != 0
  {
    var msg := EncodeDnsHeader(h) + rest;
    assert msg[2] == Len16(h.flags)[0];
    assert msg[6] == Len16(h.answers)[0] && msg[7] == Len16(h.answers)[1];
  }

  /** Of a message with that header and at most 500 bytes behind it, all is kept if it is such a response, and nothing
      otherwise; a message shorter than a header is never kept. */
  lemma {:induction false} KeptIff(h: DnsHeader, rest: seq<byte>, short: seq<byte>)
    requires |rest| <= 500 && |short| < 12
    ensures var dns := EncodeDnsHeader(h) + rest;
            Kept(dns) == if h.flags >= 0x8000 && h.answers != 0 then Some(dns) else None
    ensures Kept(short) == None
  {
    var dns := EncodeDnsHeader(h) + rest;
    ResponseIff(h, rest);
    assert dns[..|dns|] == dns;
  }

  lemma TailKept(f: Frame, off: nat, dns: seq<byte>)
    requires PayloadOffset(f) == Some(off) && f[off..] == dns
    ensures Captured(f) == Kept(dns)
  {
    var n := |dns| % (2 * MAX_DNS_MSG_SIZE);
    assert PayloadLength(f) == n && f[off..off + n] == dns[..n];
  }

  /** A UDP packet from port 53 that carries `dns`. */
  predicate UdpPacket(f: Frame, eth: seq<byte>, ip: seq<byte>, udp: seq<byte>, dns: seq<byte>) {
    && |eth| == 14 && IpHeader(ip, 17) && |udp| == 8 && DnsSourcePort(udp)
    && dns != [] && f == eth + ip + udp + dns
  }

  /** A TCP segment from port 53 that carries `dns` behind a two-byte length (section 4.2.2 of RFC 1035). */
  predicate TcpPacket(f: Frame, eth: seq<byte>, ip: seq<byte>, tcp: seq<byte>, len: seq<byte>, dns: seq<byte>) {
    && |eth| == 14 && IpHeader(ip, 6) && TcpHeader(tcp) && DnsSourcePort(tcp)
    && |len| == 2 && dns != [] && f == eth + ip + tcp + len + dns
  }

  lemma UdpTail(f: Frame, eth: seq<byte>, ip: seq<byte>, udp: seq<byte>, dns: seq<byte>)
    requires UdpPacket(f, eth, ip, udp, dns)
    ensures PayloadOffset(f) == Some(22 + |ip|) && f[22 + |ip|..] == dns
  {
    assert f[ETH_HDR_LEN] == ip[0] && f[ETH_HDR_LEN + 9] == ip[9];
    var t := ETH_HDR_LEN + |ip|;
    assert f[t] == udp[0] && f[t + 1] == udp[1];
  }

  lemma TcpTail(f: Frame, eth: seq<byte>, ip: seq<byte>, tcp: seq<byte>, len: seq<byte>, dns: seq<byte>)
    requires TcpPacket(f, eth, ip, tcp, len, dns)
    ensures PayloadOffset(f) == Some(16 + |ip| + |tcp|) && f[16 + |ip| + |tcp|..] == dns
  {
    assert f[ETH_HDR_LEN] == ip[0] && f[ETH_HDR_LEN + 9] == ip[9];
    var t := ETH_HDR_LEN + |ip|;
    assert f[t] == tcp[0] && f[t + 1] == tcp[1] && f[t + 12] == tcp[12];
  }

  /** A UDP packet from port 53 is captured exactly as far as its payload is kept. */
  lemma {:induction false} UdpCaptured(f: Frame, eth: seq<byte>, ip: seq<byte>, udp: seq<byte>, dns: seq<byte>)
    requires UdpPacket(f, eth, ip, udp, dns)
    ensures Captured(f) == Kept(dns)
  {
    UdpTail(f, eth, ip, udp, dns);
    TailKept(f, PayloadOffset(f).value, dns);
  }

  /** A TCP segment from port 53 is captured as far as the message behind its length is kept. */
  lemma {:induction false} TcpCaptured(f: Frame, eth: seq<byte>, ip: seq<byte>, tcp: seq<byte>, len: seq<byte>,
                                       dns: seq<byte>)
    requires TcpPacket(f, eth, ip, tcp, len, dns)
    ensures Captured(f) == Kept(dns)
  {
    TcpTail(f, eth, ip, tcp, len, dns);
    TailKept(f, PayloadOffset(f).value, dns);
  }

  lemma UdpFound(f: Frame) returns (eth: seq<byte>, ip: seq<byte>, udp: seq<byte>, dns: seq<byte>)
    requires PayloadOffset(f).Some? && f[ETH_HDR_LEN + 9] == PROTO_UDP
    ensures UdpPacket(f, eth, ip, udp, dns)
  {
    var t := TransportOffset(f);
    eth, ip, udp, dns := f[..ETH_HDR_LEN], f[ETH_HDR_LEN..t], f[t..t + UDP_HDR_LEN], f[t + UDP_HDR_LEN..];
    assert ip[0] == f[ETH_HDR_LEN] && ip[9] == f[ETH_HDR_LEN + 9];
    assert Be16(udp, 0) == Be16(f, t);
    assert f == eth + ip + udp + dns;
  }

  lemma TcpFound(f: Frame) returns (eth: seq<byte>, ip: seq<byte>, tcp: seq<byte>, len: seq<byte>, dns: seq<byte>)
    requires PayloadOffset(f).Some? && f[ETH_HDR_LEN + 9] != PROTO_UDP
    ensures TcpPacket(f, eth, ip, tcp, len, dns)
  {
    var t := TransportOffset(f);
    var off := PayloadOffset(f).value;
    var end := off - DNS_TCP_LEN_PREFIX;
    eth, ip, tcp, len, dns := f[..ETH_HDR_LEN], f[ETH_HDR_LEN..t], f[t..end], f[end..off], f[off..];
    assert ip[0] == f[ETH_HDR_LEN] && ip[9] == f[ETH_HDR_LEN + 9];
    assert tcp[12] == f[t + 12] && Be16(tcp, 0) == Be16(f, t);
    assert f == eth + ip + tcp + len + dns;
  }

  /** Capture exactly: a frame gives the record `msg` if and only if it is a UDP or TCP packet from port 53, with any
      IP and TCP options, whose message is kept as `msg`. */
  lemma {:induction false} CapturedIff(f: Frame, msg: seq<byte>)
    ensures Captured(f) == Some(msg) <==>
              || (exists eth, ip, udp, dns :: UdpPacket(f, eth, ip, udp, dns) && Kept(dns) == Some(msg))
              || (exists eth, ip, tcp, len, dns :: TcpPacket(f, eth, ip, tcp, len, dns) && Kept(dns) == Some(msg))
  {
    if Captured(f) == Some(msg) {
      if f[ETH_HDR_LEN + 9] == PROTO_UDP {
        var eth, ip, udp, dns := UdpFound(f);
        UdpCaptured(f, eth, ip, udp, dns);
      } else {
        var eth, ip, tcp, len, dns := TcpFound(f);
        TcpCaptured(f, eth, ip, tcp, len, dns);
      }
    }
    forall eth, ip, udp, dns | UdpPacket(f, eth, ip, udp, dns) ensures Captured(f) == Kept(dns) {
      UdpCaptured(f, eth, ip, udp, dns);
    }
    forall eth, ip, tcp, len, dns | TcpPacket(f, eth, ip, tcp, len, dns) ensures Captured(f) == Kept(dns) {
      TcpCaptured(f, eth, ip, tcp, len, dns);
    }
  }

  lemma UdpAccepted(f: Frame, eth: seq<byte>, ip: seq<byte>, udp: seq<byte>, dns: seq<byte>)
    requires UdpPacket(f, eth, ip, udp, dns)
    ensures SizeAccepted(f) <==> 12 <= |dns| % 1024 <= 512
  {
    UdpTail(f, eth, ip, udp, dns);
  }

  lemma TcpAccepted(f: Frame, eth: seq<byte>, ip: seq<byte>, tcp: seq<byte>, len: seq<byte>, dns: seq<byte>)
    requires TcpPacket(f, eth, ip, tcp, len, dns)
    ensures SizeAccepted(f) <==> 12 <= |dns| % 1024 <= 512
  {
    TcpTail(f, eth, ip, tcp, len, dns);
  }

  /** The size test exactly: such a packet whose message length modulo 1024 lies between 12 and 512. */
  lemma {:induction false} SizeAcceptedIff(f: Frame)
    ensures SizeAccepted(f) <==>
              || (exists eth, ip, udp, dns :: UdpPacket(f, eth, ip, udp, dns) && 12 <= |dns| % 1024 <= 512)
              || (exists eth, ip, tcp, len, dns ::
                    TcpPacket(f, eth, ip, tcp, len, dns) && 12 <= |dns| % 1024 <= 512)
  {
    if SizeAccepted(f) {
      if f[ETH_HDR_LEN + 9] == PROTO_UDP {
        var eth, ip, udp, dns := UdpFound(f);
        UdpAccepted(f, eth, ip, udp, dns);
      } else {
        var eth, ip, tcp, len, dns := TcpFound(f);
        TcpAccepted(f, eth, ip, tcp, len, dns);
      }
    }
    forall eth, ip, udp, dns | UdpPacket(f, eth, ip, udp, dns)
      ensures SizeAccepted(f) <==> 12 <= |dns| % 1024 <= 512
    {
      UdpAccepted(f, eth, ip, udp, dns);
    }
    forall eth, ip, tcp, len, dns | TcpPacket(f, eth, ip, tcp, len, dns)
      ensures SizeAccepted(f) <==> 12 <= |dns| % 1024 <= 512
    {
      TcpAccepted(f, eth, ip, tcp, len, dns);
    }
  }

  /** A captured record is the whole frame tail if and only if the tail is shorter than 1024 bytes. */
  lemma {:induction false} WholeTailIff(f: Frame)
    requires Captured(f).Some?
    ensures Captured(f).value == f[PayloadOffset(f).value..] <==> |f| - PayloadOffset(f).value < 1024
  {
    var tail := f[PayloadOffset(f).value..];
    assert |tail| < 1024 ==> Captured(f).value == tail;
  }

  /** A frame of which only a prefix is captured: of a response of 1036 bytes over UDP the record holds the first 12. */
  lemma LongAnswerTruncated()
    ensures exists f, eth, ip, udp, dns ::
              UdpPacket(f, eth, ip, udp, dns) && |dns| == 1036 && Captured(f) == Some(dns[..12])
  {
    var eth: seq<byte> := seq(14, _ => 0);
    var ip: seq<byte> := [0x45, 0, 0, 0, 0, 0, 0, 0, 0, 17, 0, 0, 0, 0, 0, 0, 0, 0, 0, 0];
    var udp: seq<byte> := [0, 53, 0, 0, 0, 0, 0, 0];
    var dns: seq<byte> := seq(1036, i => if i == 2 then 0x80 else if i == 7 then 1 else 0);
    var f: Frame := eth + ip + udp + dns;
    assert UdpPacket(f, eth, ip, udp, dns);
    UdpCaptured(f, eth, ip, udp, dns);
  }
}
