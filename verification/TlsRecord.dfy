/** Reading the first TLS record of a connection and finding the host in it (extractSNI). */
module TlsRecord {
  import opened Bytes
  import opened Conn
  import CH = ClientHello

  const RECORD_HANDSHAKE: byte := 0x16
  const HANDSHAKE_CLIENT_HELLO: byte := 0x01
  const RECORD_HDR_TAIL := 4
  const RECORD_LEN_OFFSET := 2
  const HANDSHAKE_HDR_LEN := 4

  function Be24(b: seq<byte>, i: nat): (n: nat)
    requires i + 3 <= |b|
    ensures n < 0x100_0000
  {
    0x1_0000 * (b[i] as int) + 0x100 * (b[i + 1] as int) + b[i + 2]
  }

  function Len24(n: nat): (b: seq<byte>)
    requires n < 0x100_0000
    ensures |b| == 3 && Be24(b, 0) == n
  {
    [n / 0x1_0000, n / 0x100 % 0x100, n % 0x100]
  }

  /** The host named by a record's first handshake message, which must be a whole ClientHello. */
  function HostInRecord(rec: seq<byte>): (host: seq<byte>) {
    if |rec| < HANDSHAKE_HDR_LEN || rec[0] != HANDSHAKE_CLIENT_HELLO then []
    else if |rec| < HANDSHAKE_HDR_LEN + Be24(rec, 1) then []
    else CH.SniOf(rec[HANDSHAKE_HDR_LEN..HANDSHAKE_HDR_LEN + Be24(rec, 1)])
  }

  /** The number of bytes after the content type that the record takes, if they are all in `s`. */
  function RecordTail(s: seq<byte>): (n: Option<nat>)
    ensures n.Some? ==> RECORD_HDR_TAIL <= n.value <= |s|
  {
    if |s| < RECORD_HDR_TAIL || |s| < RECORD_HDR_TAIL + Be16(s, RECORD_LEN_OFFSET) then None
    else Some(RECORD_HDR_TAIL + Be16(s, RECORD_LEN_OFFSET))
  }

  datatype Extraction = Extraction(host: seq<byte>, peeked: seq<byte>, err: bool, rest: seq<Arrival>)

  /** The outcome of the two exact reads and the search. */
  function Extracted(plan: seq<Arrival>, firstByte: byte): Extraction
    requires Live(plan)
  {
    ExactReadIgnoresCuts(plan, RECORD_HDR_TAIL);
    var hdr := ReadExactly(plan, RECORD_HDR_TAIL);
    if hdr.err then Extraction([], [], true, hdr.rest)
    else
      var rec := ReadExactly(hdr.rest, Be16(hdr.data, RECORD_LEN_OFFSET));
      if rec.err then Extraction([], [], true, rec.rest)
      else Extraction(HostInRecord(rec.data), [firstByte] + hdr.data + rec.data, false, rec.rest)
  }

  method FindHost(recData: seq<byte>) returns (host: seq<byte>)
    ensures host == HostInRecord(recData)
  {
    if |recData| < HANDSHAKE_HDR_LEN || recData[0] != HANDSHAKE_CLIENT_HELLO {
      return [];
    }
    var hsLen := Be24(recData, 1);
    if |recData| < HANDSHAKE_HDR_LEN + hsLen {
      return [];
    }
    host := CH.ParseSNI(recData[HANDSHAKE_HDR_LEN..HANDSHAKE_HDR_LEN + hsLen]);
  }

  method ExtractSNI(conn: Connection, firstByte: byte) returns (host: seq<byte>, peeked: seq<byte>, err: bool)
    requires Live(conn.plan)
    modifies conn
    ensures Extraction(host, peeked, err, conn.plan) == Extracted(old(conn.plan), firstByte)
  {
    host, peeked := [], [];
    ExactReadIgnoresCuts(conn.plan, RECORD_HDR_TAIL);
    var hdr, recData;
    hdr, err := conn.ReadFull(RECORD_HDR_TAIL);
    if err {
      return;
    }
    var recLen := Be16(hdr, RECORD_LEN_OFFSET);
    recData, err := conn.ReadFull(recLen);
    if err {
      return;
    }
    peeked := [firstByte] + hdr;
    peeked := peeked + recData;
    host := FindHost(recData);
  }

  lemma SameLength(hdr: seq<byte>, s: seq<byte>)
    requires |hdr| == RECORD_HDR_TAIL && hdr <= s
    ensures Be16(s, RECORD_LEN_OFFSET) == Be16(hdr, RECORD_LEN_OFFSET)
  {
    assert s[2] == hdr[2] && s[3] == hdr[3];
  }

  /** However the stream is cut: when the extraction succeeds, the peeked bytes are the first record
      and the unread bytes the rest of the stream; it succeeds when the record arrives without error. */
  lemma {:induction false} RecordConserved(plan: seq<Arrival>, firstByte: byte)
    requires Live(plan)
    ensures var x, s := Extracted(plan, firstByte), Flatten(plan);
            && Live(x.rest)
            && (x.err ==> x.host == [] && x.peeked == [] && RecordTail(Clean(plan)).None?)
            && (!x.err ==> RecordTail(s).Some?
                           && x.peeked == [firstByte] + s[..RecordTail(s).value]
                           && x.peeked + Flatten(x.rest) == [firstByte] + s
                           && x.host == HostInRecord(s[RECORD_HDR_TAIL..RecordTail(s).value]))
  {
    var s, c := Flatten(plan), Clean(plan);
    CleanIsPrefix(plan);
    ExactReadIgnoresCuts(plan, RECORD_HDR_TAIL);
    var hdr := ReadExactly(plan, RECORD_HDR_TAIL);
    if !hdr.err {
      var recLen := Be16(hdr.data, RECORD_LEN_OFFSET);
      SameLength(hdr.data, s);
      SameLength(c[..RECORD_HDR_TAIL], s);
      SameLength(c[..RECORD_HDR_TAIL], c);
      ExactReadIgnoresCuts(hdr.rest, recLen);
      var rec := ReadExactly(hdr.rest, recLen);
      if !rec.err {
        RecordJoined(hdr.data, rec.data, Flatten(rec.rest), firstByte);
      }
    }
  }

  lemma RecordJoined(hdr: seq<byte>, rec: seq<byte>, rest: seq<byte>, firstByte: byte)
    requires |hdr| == RECORD_HDR_TAIL && |rec| == Be16(hdr, RECORD_LEN_OFFSET)
    ensures var s := hdr + (rec + rest);
            && RecordTail(s) == Some(|hdr| + |rec|)
            && [firstByte] + hdr + rec == [firstByte] + s[..|hdr| + |rec|]
            && ([firstByte] + hdr + rec) + rest == [firstByte] + s
            && s[RECORD_HDR_TAIL..|hdr| + |rec|] == rec
  {
    var s := hdr + (rec + rest);
    assert Be16(s, RECORD_LEN_OFFSET) == |rec|;
    assert s[..|hdr| + |rec|] == hdr + rec;
  }

  // ---------- Framing ----------

  /** The first handshake message of a record: a ClientHello header that declares `declared` bytes. */
  function HandshakeBytes(declared: nat, body: seq<byte>): seq<byte>
    requires declared < 0x100_0000
  {
    [HANDSHAKE_CLIENT_HELLO] + Len24(declared) + body
  }

  /** A complete hello is found whatever handshake bytes follow it; a hello that goes on in a later record yields no
      host. The message type is 1 and the length is in the three bytes behind it, the most significant first. */
  lemma {:induction false} HelloFramed(a: byte, b: byte, c: byte, hello: seq<byte>, more: seq<byte>)
    ensures |hello| == 65536 * (a as int) + 256 * (b as int) + c ==>
              HostInRecord([1, a, b, c] + (hello + more)) == CH.SniOf(hello)
    ensures |hello| < 65536 * (a as int) + 256 * (b as int) + c ==> HostInRecord([1, a, b, c] + hello) == []
  {
    var declared := 65536 * (a as int) + 256 * (b as int) + c;
    if |hello| == declared {
      var rec := [1, a, b, c] + (hello + more);
      assert rec[4..4 + declared] == hello;
    }
  }

  /** A first handshake message of any other type than 1 yields no host. */
  lemma OtherHandshakeNotNamed(rec: seq<byte>)
    requires rec == [] || rec[0] != 1
    ensures HostInRecord(rec) == []
  {
  }

  lemma HandshakeFramed(declared: nat, hello: seq<byte>, more: seq<byte>)
    requires declared < 0x100_0000
    ensures |hello| == declared ==> HostInRecord(HandshakeBytes(declared, hello + more)) == CH.SniOf(hello)
    ensures |hello| < declared ==> HostInRecord(HandshakeBytes(declared, hello)) == []
  {
    var l := Len24(declared);
    HelloFramed(l[0], l[1], l[2], hello, more);
    assert forall body: seq<byte> :: [1] + l + body == [1, l[0], l[1], l[2]] + body;
  }

  lemma SplitUnique<T>(a: seq<T>, b: seq<T>, c: seq<T>, d: seq<T>)
    requires |a| == |c| && a + b == c + d
    ensures a == c && b == d
  {
    assert a == (a + b)[..|a|] && c == (c + d)[..|c|];
    assert b == (a + b)[|a|..] && d == (c + d)[|c|..];
  }

  /** When all of the first record arrives without error, exactly that record is extracted. */
  lemma RecordExtracted(plan: seq<Arrival>, firstByte: byte, hdr: seq<byte>, rec: seq<byte>, later: seq<byte>)
    requires Live(plan) && |hdr| == RECORD_HDR_TAIL && Be16(hdr, RECORD_LEN_OFFSET) == |rec|
    requires Flatten(plan) == hdr + (rec + later)
    ensures var x := Extracted(plan, firstByte);
            && (|Clean(plan)| >= RECORD_HDR_TAIL + |rec| ==> !x.err)
            && (if x.err then x.host == []
                else x.host == HostInRecord(rec) && Flatten(x.rest) == later && x.peeked == [firstByte] + hdr + rec)
  {
    ExactReadIgnoresCuts(plan, RECORD_HDR_TAIL);
    var h := ReadExactly(plan, RECORD_HDR_TAIL);
    if !h.err {
      SplitUnique(h.data, Flatten(h.rest), hdr, rec + later);
      ExactReadIgnoresCuts(h.rest, |rec|);
      var r := ReadExactly(h.rest, |rec|);
      if !r.err {
        SplitUnique(r.data, Flatten(r.rest), rec, later);
      }
    }
  }

  /** The header tail that announces `rec`. */
  function RecordHeader(version: seq<byte>, rec: seq<byte>): (hdr: seq<byte>)
    requires |version| == 2 && |rec| < 0x1_0000
    ensures |hdr| == RECORD_HDR_TAIL && Be16(hdr, RECORD_LEN_OFFSET) == |rec|
  {
    version + Len16(|rec|)
  }

  /** On a stream whose first record holds a whole ClientHello, every way of cutting the reads that
      delivers the record yields that hello's host, and never an error. */
  lemma {:induction false} FramedHelloExtracted(plan: seq<Arrival>, firstByte: byte, version: seq<byte>,
                                                hello: seq<byte>, more: seq<byte>, later: seq<byte>)
    requires Live(plan) && |version| == 2 && |hello| < 0x100_0000
    requires |HandshakeBytes(|hello|, hello + more)| < 0x1_0000
    requires var rec := HandshakeBytes(|hello|, hello + more);
             && Flatten(plan) == RecordHeader(version, rec) + (rec + later)
             && |Clean(plan)| >= RECORD_HDR_TAIL + |rec|
    ensures var x := Extracted(plan, firstByte);
            !x.err && x.host == CH.SniOf(hello) && Flatten(x.rest) == later
  {
    var rec := HandshakeBytes(|hello|, hello + more);
    RecordExtracted(plan, firstByte, RecordHeader(version, rec), rec, later);
    HandshakeFramed(|hello|, hello, more);
  }

  /** On a stream whose first record starts with another handshake message, no host is found, for every cut. */
  lemma {:induction false} OtherRecordNotNamed(plan: seq<Arrival>, firstByte: byte, version: seq<byte>, rec: seq<byte>,
                                               later: seq<byte>)
    requires Live(plan) && |version| == 2 && |rec| < 0x1_0000 && (rec == [] || rec[0] != 1)
    requires Flatten(plan) == RecordHeader(version, rec) + (rec + later)
    ensures Extracted(plan, firstByte).host == []
  {
    RecordExtracted(plan, firstByte, RecordHeader(version, rec), rec, later);
    OtherHandshakeNotNamed(rec);
  }

  /** A hello that the first record does not hold completely is never given a host. */
  lemma {:induction false} SpanningHelloNotNamed(plan: seq<Arrival>, firstByte: byte, version: seq<byte>, declared: nat,
                                                 part: seq<byte>, later: seq<byte>)
    requires Live(plan) && |version| == 2 && |part| < declared < 0x100_0000
    requires |HandshakeBytes(declared, part)| < 0x1_0000
    requires var rec := HandshakeBytes(declared, part);
             Flatten(plan) == RecordHeader(version, rec) + (rec + later)
    ensures Extracted(plan, firstByte).host == []
  {
    var rec := HandshakeBytes(declared, part);
    RecordExtracted(plan, firstByte, RecordHeader(version, rec), rec, later);
    HandshakeFramed(declared, part, []);
  }
}
