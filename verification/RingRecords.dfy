/** The two ring-buffer records, as the hooks lay them out and as the agent reads them back. */
module RingRecords {
  import opened Bytes
  import FC = FrameCapture
  import DS = DnsService
  import opened DomainMatch

  // ---------- dns_event_t ----------

  const MSG_OFFSET := 8
  const DNS_EVENT_SIZE := 520

  /** The message part of the ring memory a reservation hands out, which is not cleared. */
  type Stale = s: seq<byte> | |s| == FC.MAX_DNS_MSG_SIZE witness seq(FC.MAX_DNS_MSG_SIZE, _ => 0)

  /** The record of a captured message; the bytes behind the message are whatever the ring held before. */
  function DnsEvent(e: Endian, msg: seq<byte>, stale: Stale): (raw: seq<byte>)
    requires |msg| <= FC.MAX_DNS_MSG_SIZE
    ensures |raw| == DNS_EVENT_SIZE
  {
    Put(e, |msg|, MSG_OFFSET) + (msg + stale[|msg|..])
  }

  datatype Sample = Skip | Message(bytes: seq<byte>) | OutOfRange

  /** Conversion of a 64-bit number to a signed 64-bit one. */
  function ToInt64(n: int): int {
    var m := n % 0x1_0000_0000_0000_0000;
    if m < 0x8000_0000_0000_0000 then m else m - 0x1_0000_0000_0000_0000
  }

  /** What the agent makes of one sample of the dns_events ring; slicing backwards is a run-time fault. */
  function ReadSample(e: Endian, raw: seq<byte>): Sample {
    if |raw| <= MSG_OFFSET then Skip
    else
      var size := Get64(e, raw[..MSG_OFFSET]);
      var end := ToInt64(MSG_OFFSET + ToInt64(size));
      if size == 0 || end > |raw| then Skip
      else if end < MSG_OFFSET then OutOfRange
      else Message(raw[MSG_OFFSET..end])
  }

  lemma EventFields(e: Endian, msg: seq<byte>, stale: Stale)
    requires |msg| <= FC.MAX_DNS_MSG_SIZE
    ensures var raw := DnsEvent(e, msg, stale);
            raw[..MSG_OFFSET] == Put(e, |msg|, MSG_OFFSET) && raw[MSG_OFFSET..MSG_OFFSET + |msg|] == msg
  {
  }

  /** Reading back what the hook submits gives exactly the captured bytes, on either byte order. */
  lemma SampleRoundTrip(e: Endian, msg: seq<byte>, stale: Stale)
    requires 0 < |msg| <= FC.MAX_DNS_MSG_SIZE
    ensures ReadSample(e, DnsEvent(e, msg, stale)) == Message(msg)
  {
    GetPut64(e, |msg|);
    EventFields(e, msg, stale);
    DeclaredSizeRead(e, DnsEvent(e, msg, stale), |msg|);
  }

  lemma DeclaredSizeRead(e: Endian, raw: seq<byte>, n: nat)
    requires |raw| == DNS_EVENT_SIZE && Get64(e, raw[..MSG_OFFSET]) == n && 0 < n <= FC.MAX_DNS_MSG_SIZE
    ensures ReadSample(e, raw) == Message(raw[MSG_OFFSET..MSG_OFFSET + n])
  {
  }

  /** The reader is safe exactly for declared sizes below 2^63 - 8: the hook's bound on the size has to travel with
      the record. */
  lemma SampleSafeIff(e: Endian, raw: seq<byte>)
    requires |raw| < 0x8000_0000_0000_0000
    ensures ReadSample(e, raw) == OutOfRange <==>
              |raw| > MSG_OFFSET && Get64(e, raw[..MSG_OFFSET]) >= 0x8000_0000_0000_0000 - MSG_OFFSET
  {
  }

  /** Where the slice of a sample of `len` bytes ends: only a size that fits comes out between 8 and `len`. */
  lemma SampleEnd(size: int, len: int)
    requires 0 < size < 0x1_0000_0000_0000_0000 && 8 < len < 0x8000_0000_0000_0000
    ensures 8 <= ToInt64(8 + ToInt64(size)) <= len <==> size <= len - 8
    ensures size <= len - 8 ==> ToInt64(8 + ToInt64(size)) == 8 + size
  {
  }

  /** The reader exactly: a message is passed on if and only if its declared size is positive and fits the sample
      behind the eight bytes that hold it, and then it is those bytes. */
  lemma SampleExactly(e: Endian, raw: seq<byte>)
    requires |raw| < 0x8000_0000_0000_0000
    ensures |raw| <= 8 ==> ReadSample(e, raw) == Skip
    ensures |raw| > 8 ==>
              var size := Get64(e, raw[..8]);
              if 0 < size <= |raw| - 8 then ReadSample(e, raw) == Message(raw[8..8 + size])
              else !ReadSample(e, raw).Message?
  {
    if |raw| > 8 {
      var size := Get64(e, raw[..8]);
      if size > 0 {
        SampleEnd(size, |raw|);
      }
    }
  }

  // ---------- Strings and addresses ----------

  /** `b` up to its first zero byte. */
  function NullTerm(b: seq<byte>): (s: seq<byte>)
    ensures |s| <= |b| && s == b[..|s|] && 0 !in s && (|s| < |b| ==> b[|s|] == 0)
  {
    if b == [] || b[0] == 0 then [] else [b[0]] + NullTerm(b[1..])
  }

  method NullTermString(b: seq<byte>) returns (s: seq<byte>)
    ensures s == NullTerm(b)
  {
    var i := 0;
    while i < |b|
      invariant i <= |b| && 0 !in b[..i]
    {
      if b[i] == 0 {
        NullTermUnique(b, i);
        return b[..i];
      }
      i := i + 1;
    }
    NullTermUnique(b, i);
    assert b[..i] == b;
    return b;
  }

  lemma NullTermUnique(b: seq<byte>, n: nat)
    requires n <= |b| && 0 !in b[..n] && (n < |b| ==> b[n] == 0)
    ensures NullTerm(b) == b[..n]
  {
    var s := NullTerm(b);
    assert forall k :: 0 <= k < n ==> b[k] in b[..n];
    assert forall k :: 0 <= k < |s| ==> b[k] in s;
  }

  /** A stored hostname is its first 64 bytes and zeros behind them; the name read back is those bytes if and only if
      they hold no zero. */
  lemma HostnameRoundTrip(host: Name)
    ensures var kept := if |host| <= 64 then host else host[..64];
            var b := DS.StoredName(host);
            && |b| == 64 && kept <= b && (forall k :: |kept| <= k < 64 ==> b[k] == 0)
            && (NullTerm(b) == kept <==> 0 !in kept)
  {
    var kept := if |host| <= 64 then host else host[..64];
    var b := DS.StoredName(host);
    assert b[..|kept|] == kept;
    if 0 !in kept {
      NullTermUnique(b, |kept|);
    }
  }

  /** ntohs: the number whose big-endian bytes are the native bytes of `n`. */
  function Ntohs(e: Endian, n: uint16): uint16 {
    Get16(Big, Put(e, n, 2))
  }

  lemma NtohsBytes(e: Endian, n: uint16)
    ensures Ntohs(e, n) == if e == Big then n else 256 * (n % 256) + n / 256
  {
    var b := Put(e, n, 2);
    Put2(e, n);
    Be16IsGet(b, 0);
    assert b[0..2] == b;
  }

  lemma Put2(e: Endian, n: uint16)
    ensures Put(e, n, 2) == if e == Big then [n / 256, n % 256] else [n % 256, n / 256]
  {
    assert Put(e, n / 256, 1) == [n / 256];
  }

  lemma NtohsInvolution(e: Endian, n: uint16)
    ensures Ntohs(e, Ntohs(e, n)) == n
  {
    NtohsBytes(e, n);
    NtohsBytes(e, Ntohs(e, n));
  }

  /** Reading four octets in the machine's order and laying them out again is the identity, so different addresses have
      different map keys. */
  lemma AddressRoundTrip(e: Endian, octets: seq<byte>)
    requires |octets| == 4
    ensures Put(e, Get32(e, octets), 4) == octets
  {
    PutGet(e, octets);
  }

  // ---------- redirect_event_t ----------

  const COMMAND_SIZE := 16
  const REDIRECT_EVENT_SIZE := 248

  type Command = s: seq<byte> | |s| == COMMAND_SIZE witness seq(COMMAND_SIZE, _ => 0)

  datatype Redirect = Redirect(pid: uint32, tgid: uint32, originalIp: uint32, originalPort: uint16,
                               proxyIp: uint32, proxyPort: uint16, hostname: DS.HostField, command: Command,
                               timestamp: uint64)

  /** The ring memory a reservation hands out is not cleared. */
  type StaleEvent = s: seq<byte> | |s| == REDIRECT_EVENT_SIZE witness seq(REDIRECT_EVENT_SIZE, _ => 0)

  /** The first 24 bytes: process, original address and proxy address, with their padding. */
  function RedirectHead(e: Endian, ev: Redirect, stale: StaleEvent): (b: seq<byte>)
    ensures |b| == 24
  {
    Put(e, ev.pid, 4) + Put(e, ev.tgid, 4) + Put(e, ev.originalIp, 4) + Put(e, ev.originalPort, 2) + stale[14..16]
    + Put(e, ev.proxyIp, 4) + Put(e, ev.proxyPort, 2) + stale[22..24]
  }

  /** The record; the command line and the padding are never written by the hook. */
  function RedirectEvent(e: Endian, ev: Redirect, stale: StaleEvent): (raw: seq<byte>)
    ensures |raw| == REDIRECT_EVENT_SIZE
  {
    RedirectHead(e, ev, stale) + (ev.hostname + (ev.command + (stale[104..240] + Put(e, ev.timestamp, 8))))
  }

  /** A log line: addresses as octets, ports in host order. */
  datatype LogLine = LogLine(pid: uint32, process: seq<byte>, originalHost: seq<byte>, originalIp: seq<byte>,
                             originalPort: uint16, proxyIp: seq<byte>, proxyPort: uint16)

  /** What the agent logs for a redirect. */
  function LineOf(e: Endian, ev: Redirect): LogLine {
    LogLine(ev.pid, NullTerm(ev.command), NullTerm(ev.hostname), Put(e, ev.originalIp, 4), Ntohs(e, ev.originalPort),
            Put(e, ev.proxyIp, 4), Ntohs(e, ev.proxyPort))
  }

  /** Decoding a sample of the redirect_events ring by the field offsets of the struct. */
  function ReadRedirect(e: Endian, raw: seq<byte>): Option<LogLine> {
    if |raw| < REDIRECT_EVENT_SIZE then None
    else Some(LogLine(Get32(e, raw[0..4]), NullTerm(raw[88..104]), NullTerm(raw[24..88]),
                      Put(e, Get32(e, raw[8..12]), 4), Ntohs(e, Get16(e, raw[12..14])),
                      Put(e, Get32(e, raw[16..20]), 4), Ntohs(e, Get16(e, raw[20..22]))))
  }

  lemma HeadFields(e: Endian, ev: Redirect, stale: StaleEvent)
    ensures var h := RedirectHead(e, ev, stale);
            && h[0..4] == Put(e, ev.pid, 4) && h[4..8] == Put(e, ev.tgid, 4) && h[8..12] == Put(e, ev.originalIp, 4)
            && h[12..14] == Put(e, ev.originalPort, 2) && h[16..20] == Put(e, ev.proxyIp, 4)
            && h[20..22] == Put(e, ev.proxyPort, 2)
  {
  }

  lemma SliceOfFront(front: seq<byte>, rest: seq<byte>, i: nat, j: nat)
    requires i <= j <= |front|
    ensures (front + rest)[i..j] == front[i..j]
  {
  }

  lemma NamesInRecord(head: seq<byte>, hostname: seq<byte>, command: seq<byte>, tail: seq<byte>)
    requires |head| == 24 && |hostname| == DS.MAX_HOSTNAME_LEN && |command| == COMMAND_SIZE
    ensures var raw := head + (hostname + (command + tail));
            raw[24..88] == hostname && raw[88..104] == command
  {
  }

  /** Reading back what the connect hook submits gives the line of that redirect, on either byte order. */
  lemma RedirectRoundTrip(e: Endian, ev: Redirect, stale: StaleEvent)
    ensures ReadRedirect(e, RedirectEvent(e, ev, stale)) == Some(LineOf(e, ev))
  {
    var head := RedirectHead(e, ev, stale);
    var tail := stale[104..240] + Put(e, ev.timestamp, 8);
    var rest := ev.hostname + (ev.command + tail);
    HeadFields(e, ev, stale);
    SliceOfFront(head, rest, 0, 4);
    SliceOfFront(head, rest, 8, 12);
    SliceOfFront(head, rest, 12, 14);
    SliceOfFront(head, rest, 16, 20);
    SliceOfFront(head, rest, 20, 22);
    NamesInRecord(head, ev.hostname, ev.command, tail);
    GetPut32(e, ev.pid);
    GetPut32(e, ev.originalIp);
    GetPut16(e, ev.originalPort);
    GetPut32(e, ev.proxyIp);
    GetPut16(e, ev.proxyPort);
  }

  /** The fields that no log line shows: the thread group behind the process, and the time at the end of 248 bytes. A
      shorter sample is not read. */
  lemma RedirectEnds(e: Endian, ev: Redirect, stale: StaleEvent, short: seq<byte>)
    ensures var raw := RedirectEvent(e, ev, stale);
            |raw| == 248 && raw[4..8] == Put(e, ev.tgid, 4) && raw[240..248] == Put(e, ev.timestamp, 8)
    ensures |short| < 248 ==> ReadRedirect(e, short) == None
  {
    var head := RedirectHead(e, ev, stale);
    var names := ev.hostname + (ev.command + (stale[104..240] + Put(e, ev.timestamp, 8)));
    HeadFields(e, ev, stale);
    SliceOfFront(head, names, 4, 8);
    var raw := head + names;
    assert raw[240..248] == Put(e, ev.timestamp, 8);
  }
}
