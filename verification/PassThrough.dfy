/** One proxied connection: choose the target from the first bytes, then forward every byte (handle). */
module PassThrough {
  import opened Bytes
  import opened Conn
  import CH = ClientHello
  import Tls = TlsRecord
  import Http = HttpHost

  const HTTPS_PORT := 443
  const HTTP_PORT := 80
  const COPY_BUF_SIZE := 32768

  /** What is dialled: an address that already carries its port, as it stands, or a host joined with the default port.
      */
  datatype Target = AsGiven(address: seq<byte>) | Joined(host: seq<byte>, port: nat)

  /** The library's test whether a string splits into host and port; nothing is known of it here. */
  type PortTest = seq<byte> -> bool

  function TargetOf(hasPort: PortTest, host: seq<byte>, upstreamPort: nat): Target {
    if hasPort(host) then AsGiven(host) else Joined(host, upstreamPort)
  }

  datatype Decision = Drop | Fault | Dial(host: seq<byte>, target: Target, peeked: seq<byte>)

  datatype Choice = Choice(decision: Decision, rest: seq<Arrival>)

  /** The target chosen from the client's bytes, and what is left to read. */
  function Decide(t: Http.Text, hasPort: PortTest, plan: seq<Arrival>): Choice
    requires Live(plan)
  {
    ExactReadIgnoresCuts(plan, 1);
    var first := ReadExactly(plan, 1);
    if first.err then Choice(Drop, first.rest)
    else if first.data[0] == Tls.RECORD_HANDSHAKE then
      var x := Tls.Extracted(first.rest, first.data[0]);
      Choice(if x.err || x.host == [] then Drop
             else Dial(x.host, TargetOf(hasPort, x.host, HTTPS_PORT), x.peeked), x.rest)
    else
      match Http.Extracted(t, first.rest, first.data[0])
      case Fault => Choice(Fault, Http.Peek(first.data, first.rest).rest)
      case Extraction(host, peeked, err, rest) =>
        Choice(if err || host == [] then Drop
               else Dial(host, TargetOf(hasPort, host, HTTP_PORT), peeked), rest)
  }

  lemma CopyStep(plan: seq<Arrival>, out: seq<byte>)
    requires Live(plan)
    ensures var r := ReadOnce(plan, COPY_BUF_SIZE);
            && Live(r.rest) && (r.err || r.data != [])
            && out + Flatten(plan) == (out + r.data) + Flatten(r.rest)
            && out + Clean(plan) == if r.err then out + r.data else (out + r.data) + Clean(r.rest)
  {
    ReadConserves(plan, COPY_BUF_SIZE);
  }

  /** Forwards what `rounds` reads bring, or up to the first error. If the upstream then fails in the middle of a
      write, the first `cut` bytes of the next read still get through and the rest of that read is lost. */
  method CopyTo(conn: Connection, rounds: nat, cut: Option<nat>) returns (out: seq<byte>)
    requires Live(conn.plan)
    modifies conn
    ensures Live(conn.plan) && out <= Flatten(old(conn.plan))
    ensures cut.None? ==> Flatten(old(conn.plan)) == out + Flatten(conn.plan)
    ensures rounds > |Clean(old(conn.plan))| ==> out == Clean(old(conn.plan))
  {
    out := [];
    ghost var s, c := Flatten(conn.plan), Clean(conn.plan);
    var left, err := rounds, false;
    while left > 0 && !err
      invariant Live(conn.plan) && s == out + Flatten(conn.plan) && left <= rounds
      invariant if err then c == out else c == out + Clean(conn.plan) && rounds - left <= |out|
      decreases left
    {
      CopyStep(conn.plan, out);
      var piece;
      piece, err := conn.Read(COPY_BUF_SIZE);
      out := out + piece;
      left := left - 1;
    }
    if cut.Some? && !err {
      CopyStep(conn.plan, out);
      var piece, _ := conn.Read(COPY_BUF_SIZE);
      out := out + if cut.value < |piece| then piece[..cut.value] else piece;
    }
  }

  /** Reads the first byte, looks for the host on the path it selects, and makes the target of it. */
  method Choose(t: Http.Text, hasPort: PortTest, conn: Connection) returns (decision: Decision)
    requires Live(conn.plan)
    modifies conn
    ensures decision == Decide(t, hasPort, old(conn.plan)).decision
    ensures !decision.Fault? ==> conn.plan == Decide(t, hasPort, old(conn.plan)).rest
  {
    ExactReadIgnoresCuts(conn.plan, 1);
    var first, err := conn.ReadFull(1);
    if err {
      return Drop;
    }
    var host, peeked, upstreamPort;
    if first[0] == Tls.RECORD_HANDSHAKE {
      host, peeked, err := Tls.ExtractSNI(conn, first[0]);
      upstreamPort := HTTPS_PORT;
    } else {
      var fault;
      fault, host, peeked, err := Http.ExtractHTTPHost(t, conn, first[0]);
      upstreamPort := HTTP_PORT;
      if fault {
        return Fault;
      }
    }
    if err || host == [] {
      return Drop;
    }
    var target := AsGiven(host);
    if !hasPort(host) {
      target := Joined(host, upstreamPort);
    }
    decision := Dial(host, target, peeked);
  }

  /** How an upstream connection goes: whether it can be dialled, how many of the peeked bytes it takes, how many
      reads are copied whole before either side closes, and how much of a last, failing write gets through. */
  datatype Upstream = Upstream(dialOk: bool, accepted: nat, rounds: nat, cut: Option<nat>)

  /** Writes the peeked bytes upstream, of which only some may get through before an error, and then copies the rest. */
  method Forward(conn: Connection, peeked: seq<byte>, up: Upstream) returns (sent: seq<byte>)
    requires Live(conn.plan)
    modifies conn
    ensures sent <= peeked + Flatten(old(conn.plan))
    ensures if up.accepted < |peeked| then sent == peeked[..up.accepted] else peeked <= sent
    ensures up.accepted >= |peeked| && up.rounds > |Clean(old(conn.plan))| ==> sent == peeked + Clean(old(conn.plan))
  {
    if up.accepted < |peeked| {
      return peeked[..up.accepted];
    }
    var copied := CopyTo(conn, up.rounds, up.cut);
    sent := peeked + copied;
  }

  /** One connection: what is dialled is the target decided on, and what upstream gets is a prefix of what the client
      sent. */
  method Handle(t: Http.Text, hasPort: PortTest, conn: Connection, up: Upstream)
    returns (dialled: Option<Target>, sent: seq<byte>)
    requires Live(conn.plan)
    modifies conn
    ensures var d := Decide(t, hasPort, old(conn.plan)).decision;
            dialled == if d.Dial? then Some(d.target) else None
    ensures sent <= Flatten(old(conn.plan))
    ensures dialled.None? || !up.dialOk ==> sent == []
    ensures dialled.Some? && up.dialOk ==>
              var c := Decide(t, hasPort, old(conn.plan));
              && (up.accepted < |c.decision.peeked| ==> sent == c.decision.peeked[..up.accepted])
              && (up.accepted >= |c.decision.peeked| ==> c.decision.peeked <= sent)
              && (up.accepted >= |c.decision.peeked| && up.rounds > |Clean(c.rest)| ==>
                    sent == c.decision.peeked + Clean(c.rest))
  {
    DecideConserves(t, hasPort, conn.plan);
    var decision := Choose(t, hasPort, conn);
    if !decision.Dial? {
      return None, [];
    }
    dialled := Some(decision.target);
    if !up.dialOk {
      return dialled, [];
    }
    sent := Forward(conn, decision.peeked, up);
  }

  lemma TlsConserves(plan: seq<Arrival>, b: byte)
    requires Live(plan)
    ensures var x := Tls.Extracted(plan, b);
            Live(x.rest) && (!x.err ==> x.peeked + Flatten(x.rest) == [b] + Flatten(plan))
  {
    Tls.RecordConserved(plan, b);
  }

  lemma HttpConserves(t: Http.Text, plan: seq<Arrival>, b: byte)
    requires Live(plan)
    ensures var x := Http.Extracted(t, plan, b);
            && Live(Http.Peek([b], plan).rest)
            && (x.Extraction? ==>
                  x.rest == Http.Peek([b], plan).rest && x.peeked + Flatten(x.rest) == [b] + Flatten(plan))
  {
    Http.PeekConserves([b], plan);
  }

  /** On both paths, a chosen target's peeked bytes followed by the unread ones are the client's stream. */
  lemma {:induction false} DecideConserves(t: Http.Text, hasPort: PortTest, plan: seq<Arrival>)
    requires Live(plan)
    ensures var c := Decide(t, hasPort, plan);
            && Live(c.rest)
            && (c.decision.Dial? ==> c.decision.host != [] && c.decision.peeked + Flatten(c.rest) == Flatten(plan))
  {
    ExactReadIgnoresCuts(plan, 1);
    var first := ReadExactly(plan, 1);
    if !first.err {
      var b := first.data[0];
      assert first.data == [b];
      if b == Tls.RECORD_HANDSHAKE {
        TlsConserves(first.rest, b);
      } else {
        HttpConserves(t, first.rest, b);
      }
    }
  }

  // ---------- End to end ----------

  lemma FirstByteRead(plan: seq<Arrival>, s: seq<byte>)
    requires Live(plan) && Flatten(plan) == s && Clean(plan) != []
    ensures var r := ReadExactly(plan, 1);
            && Live(r.rest) && !r.err && r.data == s[..1] && s != []
            && Flatten(r.rest) == s[1..] && |Clean(plan)| <= 1 + |Clean(r.rest)|
  {
    ExactReadIgnoresCuts(plan, 1);
    var r := ReadExactly(plan, 1);
    Tls.SplitUnique(r.data, Flatten(r.rest), s[..1], s[1..]);
  }

  /** A TLS client whose first record holds its whole ClientHello is sent to the name it asked for, on port 443 unless
      the name carries a port itself, however its bytes are cut. */
  lemma {:induction false} TlsClientReachesItsHost(t: Http.Text, hasPort: PortTest, plan: seq<Arrival>,
                                                   version: seq<byte>, hello: seq<byte>, more: seq<byte>,
                                                   later: seq<byte>)
    requires Live(plan) && |version| == 2 && |hello| < 0x100_0000 && CH.SniOf(hello) != []
    requires |Tls.HandshakeBytes(|hello|, hello + more)| < 0x1_0000
    requires var rec := Tls.HandshakeBytes(|hello|, hello + more);
             && Flatten(plan) == [0x16] + (Tls.RecordHeader(version, rec) + (rec + later))
             && |Clean(plan)| >= 5 + |rec|
    ensures var rec := Tls.HandshakeBytes(|hello|, hello + more);
            var c := Decide(t, hasPort, plan);
            var host := CH.SniOf(hello);
            && c.decision == Dial(host, if hasPort(host) then AsGiven(host) else Joined(host, 443),
                                  [0x16] + Tls.RecordHeader(version, rec) + rec)
            && Flatten(c.rest) == later
  {
    var rec := Tls.HandshakeBytes(|hello|, hello + more);
    var hdr := Tls.RecordHeader(version, rec);
    FirstByteRead(plan, [0x16] + (hdr + (rec + later)));
    var first := ReadExactly(plan, 1);
    Tls.RecordExtracted(first.rest, first.data[0], hdr, rec, later);
    Tls.HandshakeFramed(|hello|, hello, more);
  }

  /** An HTTP client whose header block fits the peek and has a Host header is sent to that host, on port 80 unless
      the header carries a port itself, however its bytes are cut. */
  lemma {:induction false} HttpClientReachesItsHost(t: Http.Text, hasPort: PortTest, plan: seq<Arrival>, s: seq<byte>,
                                                    end: nat, i: nat, stop: nat)
    requires t.AgreesOnAscii() && Live(plan) && Flatten(plan) == s && Http.Ascii(s) && s != []
    requires s[0] != 0x16 && Http.HeaderEnd(s, end) && end + 4 <= 16384 && end + 4 <= |Clean(plan)|
    requires Http.FirstMark(s, i) && i < end && Http.UpToCR(s, i + 8, stop) && !Http.Blank(s[i + 8..stop])
    ensures var d := Decide(t, hasPort, plan).decision;
            && d.Dial? && d.host == Http.AsciiTrim(s[i + 8..stop])
            && d.target == if hasPort(d.host) then AsGiven(d.host) else Joined(d.host, 80)
  {
    FirstByteRead(plan, s);
    var first := ReadExactly(plan, 1);
    Http.ChunkingIndependent(t, s, end, first.rest, i, stop);
    Http.TrimEmptyIff(s[i + 8..stop]);
    assert first.data == s[..1] == [s[0]];
  }
}
