# Verified model of ai-traffic-interceptor

The agent watches DNS answers in the kernel, learns which IPv4 addresses belong to AI services, and redirects
connections to those addresses to a proxy. The pass-through proxy in `testing/proxy` reads the first bytes of a
redirected connection to find out where it was meant to go. This project models both in Dafny and proves what they promise.

`dafny verify dfyconfig.toml` checks everything.

## The interception pipeline

| file | what it models |
|---|---|
| `FrameCapture.dfy` | the header arithmetic of the TC hook, in 16-bit variables, against packet layouts |
| `RingRecords.dfy` | the two ring records byte by byte, and how the agent reads them back, on either byte order |
| `DomainMatch.dfy` | matching a host name against the configured domains, against dot-separated labels |
| `CnamePass.dfy` | the two passes over the answers of a DNS message, against chains and paths of CNAME records |
| `DnsService.dfy` | the DNS service and the `ai_destinations` map, whose updates may fail or evict other keys |
| `Kernel.dfy` | ring reservations, the two hooks as code, and the step each of them is |
| `Agent.dfy` | start-up, clean-up and the ring readers, as code and as steps |
| `Pipeline.dfy` | all interleavings of those steps, the invariant they keep, and the whole-run theorems |

A run is any sequence of frames, ring reads, evictions, connects, start-up steps and shutdowns. Each hook run and each message
is one step. What the environment decides (ring full, map update refused, keys evicted, an attachment failing) is part
of the event. The methods of `Kernel.Objects` and `Agent.Manager` are proved to perform exactly the steps that the theorems
in `Pipeline` speak about, and `NewManager` to perform a run of the start-up steps.

The main results are `EveryRewriteHasReason` (a redirected connection can be traced to an A record, through a CNAME chain in
record order, to an AI name, in a message captured from a frame before the connect), `EveryLogLineTrue`,
`OtherTrafficUntouched`, `ConnectHookOnlyWithProxy`, `AnswerIsIntercepted` (interception under any interleaving and backlog),
`AliasesExactly` (the alias map after the one-pass loop, overwrites included), `OnePassRefinesClosure`, `PassCompleteIff` and
`CapturedIff`.

## The pass-through proxy

| file | what it models |
|---|---|
| `Bytes.dfy` | bytes, fixed-width numbers in both byte orders, searching |
| `ClientHello.dfy` | the search for a server name, against an encoder of ClientHello messages |
| `Conn.dfy` | a connection as a list of arrivals, each with bytes, an error or both |
| `TlsRecord.dfy` | reading the first record and finding the host in it |
| `HttpHost.dfy` | the bounded peek for an HTTP Host header |
| `PassThrough.dfy` | a whole connection: choosing the target and forwarding every byte |

The main results are `RoundTrip`, `LocatedIsFound` with `FoundIsLocated` (what a non-empty server name means, in both
directions), `PrefixStable`, `ChunkingIndependentIff` (when the way the reads cut the stream can matter, exactly),
`DecideConserves`, `TlsClientReachesItsHost` and `HttpClientReachesItsHost`.

## Where a promise needs a condition

- The one-pass CNAME loop never finds too much (`PassRefinesClosure`) but can miss a name of the CNAME graph (`OrderMatters`).
  That the records stand in order is sufficient to find all names, not necessary (`UnorderedYetComplete`); the exact conditions
  are `KeysAreChained` for a name, `PassCompleteIff` for all names, `ResolvedExactly` for an address and `AddressesCompleteIff`
  for all addresses. `EmptyDomainLosesAddress` shows what an empty configured domain does.
- A frame tail of 1024 bytes or more is captured as a prefix of its length modulo 1024; `WholeTailIff` says when the record is
  the whole tail, and `LongAnswerTruncated` shows one that is not. The comment in `bpf/ai_interceptor.c` describes the mask as a bound only; the model follows the code.
- The DNS ring reader slices out of range for declared sizes of at least 2^63 - 8 (`SampleSafeIff`); the hook's bound of 512
  keeps every run away from that (`RingsDisciplined`).
- The host found by an HTTP peek can depend on how the reads cut the stream when the header block has no Host header but the
  bytes behind it do (`ChunkingMatters`, and `CutDecides` for one such stream).
- The HTTP header search slices the data at a position found in the lower-cased data. That is in range if lower-casing does not
  make the data longer (`InRangeUnlessLonger`), always on ASCII (`HostOnAscii`), and out of range exactly as `SearchExactly` says
  (`LongerIsOutOfRange` for a family of inputs).
- A stored name is read back as its first 64 bytes only if those hold no zero byte (`HostnameRoundTrip`).
- The table in the repository's README names `hooks.go` as the BPF manager; the code is in `src/internal/bpf/manager.go`.

## Model

| member | source | states |
|---|---|---|
| `ClientHello.ParseSNI` | testing/proxy/main.go:130-191 | the cursor code returns what peeling the fields off the front of the message gives; every index is in range |
| `ClientHello.ScanLoop` | testing/proxy/main.go:170-190 | the extension loop makes the search of its window by positions, with its clamp, its break and its skip, and terminates because the window shrinks |
| `ClientHello.ScanFromIsScan` | testing/proxy/main.go:170-190 | the search by positions returns the name of the first well-formed server_name extension of the window |
| `ClientHello.RoundTrip` | testing/proxy/main.go:130-191 | parsing an encoded ClientHello, whatever its extensions and whatever follows it, selects the name of the first well-formed server_name extension, or nothing if there is none |
| `ClientHello.ServerNameFound` | testing/proxy/main.go:179-185 | with a server name list encoded as in section 3 of RFC 6066, behind any extensions that name no host (malformed server_name ones included), the result is the first entry's name |
| `ClientHello.EntryNamedIff` | testing/proxy/main.go:179-184 | an extension of type 0 gives the name of its first entry exactly when that entry, at bytes 5 and up with its length in bytes 3 and 4, lies inside the data |
| `ClientHello.ServerNameBehindOthers` | testing/proxy/main.go:179-188 | extensions in front whose type number is not 0 never hide the first entry of the server name list |
| `ClientHello.NoServerName` | testing/proxy/main.go:179-190 | a hello with no extension of type 0 yields no host |
| `ClientHello.WrittenOutHello` | testing/proxy/main.go:130-191 | a message given byte by byte, with a status_request extension in front of the server name `a`, yields `a` |
| `ClientHello.LocatedIsFound` | testing/proxy/main.go:144-190 | a header, extensions naming no host and a complete extension naming one inside the declared length yield that name, even if the message is cut off behind it |
| `ClientHello.FoundIsLocated` | testing/proxy/main.go:130-191 | every non-empty result comes from such a layout: no host is invented |
| `ClientHello.PrefixStable` | testing/proxy/main.go:165-177 | a prefix of a message yields no host or the message's own host |
| `Conn.ExactReadIgnoresCuts` | testing/proxy/main.go:48-50 | an exact read succeeds exactly when enough bytes come before or with the first error, returns the first bytes of the stream and loses none, however they are cut |
| `Conn.Connection.ReadFull` | testing/proxy/main.go:103-112 | the gathering loop performs that exact read |
| `TlsRecord.ExtractSNI` | testing/proxy/main.go:101-128 | the two exact reads and the search compute the extraction that the lemmas below describe |
| `TlsRecord.RecordConserved` | testing/proxy/main.go:101-115 | on success the peeked bytes are the first record and, with the unread bytes, the whole stream; an error returns no bytes and no host, and only if the record does not arrive whole before an error |
| `TlsRecord.HelloFramed` | testing/proxy/main.go:117-126 | for a record that starts with 1 and a 24-bit length: a complete hello gives its host whatever handshake bytes follow; one that is cut short by the record gives none |
| `TlsRecord.FramedHelloExtracted` | testing/proxy/main.go:101-128 | for every cut of a stream whose first record holds a whole hello, the hello's host is extracted and only later bytes stay unread |
| `TlsRecord.SpanningHelloNotNamed` | testing/proxy/main.go:121-124 | a hello that goes on in a later record yields no host, for every cut of the stream |
| `TlsRecord.OtherRecordNotNamed` | testing/proxy/main.go:117-119 | a record whose first handshake message is of another type than 1 yields no host, for every cut of the stream |
| `HttpHost.ExtractHTTPHost` | testing/proxy/main.go:193-220 | the read loop performs the specified peek, clears the error when a host is found, terminates, and peeks at most 20479 bytes |
| `HttpHost.HostOnAscii` | testing/proxy/main.go:222-240 | on ASCII data the header search never slices out of range and returns the trimmed field value behind the first CR LF `host: ` in any mixture of cases, or nothing if there is none |
| `HttpHost.NeedleIff` | testing/proxy/main.go:223-224 | looking for the needle in the lower-cased data is looking, byte by byte, for the header name in upper or lower case |
| `HttpHost.FieldValueExactly` | testing/proxy/main.go:229-239 | the field value is the text before the first CR, or before the first LF if there is no CR, or everything |
| `HttpHost.SearchExactly` | testing/proxy/main.go:222-239 | on any data and for any lower-casing, the slice is out of range exactly when the first needle of the lower-cased text ends behind the end of the data |
| `HttpHost.InRangeUnlessLonger` | testing/proxy/main.go:223-230 | lower-casing that does not make the data longer keeps the slice in range |
| `HttpHost.LongerIsOutOfRange` | testing/proxy/main.go:223-230 | a header field at the end of the data, behind text that grows when lower-cased, is sliced out of range |
| `HttpHost.TrimIsCut` | testing/proxy/main.go:236-239 | trimming removes all bytes 9 to 13 and 32 at the two ends and nothing else |
| `HttpHost.PeekConserves` | testing/proxy/main.go:193-213 | peeked bytes followed by unread bytes are the stream, and the peek is bounded |
| `HttpHost.PeekEnds` | testing/proxy/main.go:199-211 | if the header block arrives without error and fits, the peek ends less than one read behind it |
| `HttpHost.ChunkingIndependent` | testing/proxy/main.go:193-240 | with a Host header in the block, every cut of the stream finds the trimmed text between the needle and the next CR |
| `HttpHost.ChunkingIndependentIff` | testing/proxy/main.go:193-240 | all cuts agree if and only if the block has a Host header or the longest possible peek names no host |
| `HttpHost.ChunkingMatters` | testing/proxy/main.go:199-211 | otherwise two cuts of the same stream disagree, one finding no host and one the host behind the block |
| `HttpHost.CutDecides` | testing/proxy/main.go:199-211 | a concrete stream of twelve bytes on which one cut finds no host and another finds `a` |
| `PassThrough.Handle` | testing/proxy/main.go:42-99 | the target decided on is what is dialled; what upstream receives is a prefix of what the client sent, also when a write fails half way; nothing is sent without a target and a successful dial; a copy that is not cut short forwards everything up to the first error |
| `PassThrough.DecideConserves` | testing/proxy/main.go:56-67 | on both paths a chosen target has a host, and its peeked bytes with the unread ones are the client's stream |
| `PassThrough.TlsClientReachesItsHost` | testing/proxy/main.go:42-72 | a TLS client whose first record holds its hello is sent to the hello's host, as it stands if it carries a port and joined with port 443 otherwise, for every cut |
| `PassThrough.HttpClientReachesItsHost` | testing/proxy/main.go:42-72 | an HTTP client with a Host header in a block that fits is sent to that host, as it stands if it carries a port and joined with port 80 otherwise, for every cut |
| `DomainMatch.IsAIDomain` | src/internal/bpf/dns/service.go:94-102 | the scan decides whether some configured domain matches |
| `DomainMatch.IsAIIffLabels` | src/internal/bpf/dns/service.go:94-102 | a name matches exactly when some domain's labels are the last labels of the name |
| `DomainMatch.SubdomainsMatch` | src/internal/bpf/dns/service.go:94-102 | matching is closed under prepending labels |
| `DomainMatch.TrimDotIff` | src/internal/bpf/dns/service.go:40-41 | exactly one final dot is cut off a name, and a name without one is left as it is |
| `CnamePass.BuildAliases` | src/internal/bpf/dns/service.go:33-57 | the first loop builds the alias map that the lemmas below characterise |
| `CnamePass.KeysAreChained` | src/internal/bpf/dns/service.go:33-57 | the keys are exactly the names reached from an AI owner by CNAME records at increasing positions |
| `CnamePass.AliasesExactly` | src/internal/bpf/dns/service.go:43-56 | a name is mapped to an origin if and only if the origin is the AI owner that starts a chain to it with no later AI owner, each link being the last to write its target before the next link reads it |
| `CnamePass.DestinationsFrom` | src/internal/bpf/dns/service.go:59-89 | a destination is written if and only if some answer resolves to it under the alias map |
| `CnamePass.DestinationsInOrder` | src/internal/bpf/dns/service.go:59-89 | destinations are written once per resolving answer, in the order of the answers |
| `CnamePass.ResolvedExactly` | src/internal/bpf/dns/service.go:59-89 | a destination is written if and only if an A record holding those four octets is explained by that host: its own AI name, or the origin of a latest chain to its name (which the code drops if that origin is empty) |
| `CnamePass.To4Iff` | src/internal/bpf/dns/service.go:65-68 | an address field gives four octets if and only if it is those octets, or ten zeros, two bytes of 255 and those octets |
| `CnamePass.OtherAddressNotWritten` | src/internal/bpf/dns/service.go:65-68 | an A record whose address field is in neither form yields nothing |
| `CnamePass.QualifiedAddressWritten` | src/internal/bpf/dns/service.go:65-88 | an A record of an AI name with its final dot is written with its own octets under the name without the dot |
| `CnamePass.AliasedAddressWritten` | src/internal/bpf/dns/service.go:40-88 | for an AI name, its alias and the alias's A record, all with final dots, exactly that address is written, under the AI name |
| `CnamePass.FinalDotsIgnored` | src/internal/bpf/dns/service.go:40-70 | adding the final dot to every name that lacks it leaves the written destinations unchanged |
| `CnamePass.PassRefinesClosure` | src/internal/bpf/dns/service.go:33-57 | the pass never reaches more than the order-free CNAME graph, and exactly that when each record stands before those that continue it |
| `CnamePass.OnePassRefinesClosure` | src/internal/bpf/dns/service.go:33-89 | on ordered answers and without empty domains, the written addresses are exactly the A records of AI names and of names reached from them in the graph |
| `CnamePass.PassCompleteIff` | src/internal/bpf/dns/service.go:33-57 | the pass finds every name of the graph if and only if each is reached in order, and if and only if every CNAME whose owner is reached in order has its target reached in order |
| `CnamePass.AddressesCompleteIff` | src/internal/bpf/dns/service.go:33-89 | for any answers and any domains, the written addresses are exactly the reached ones if and only if each reached address has an A record of an AI name or of the end of a latest chain from a non-empty AI name |
| `CnamePass.UnorderedYetComplete` | src/internal/bpf/dns/service.go:33-57 | answers that are not ordered and in which the pass still finds every name |
| `CnamePass.OrderMatters` | src/internal/bpf/dns/service.go:49-51 | out of order, a reached name is missed |
| `CnamePass.EmptyDomainLosesAddress` | src/internal/bpf/dns/service.go:76-80 | with an empty configured domain, an ordered and reached address is not written |
| `DnsService.Service.WriteDestination` | src/internal/bpf/dns/service.go:104-117 | the map gets, or refuses, the entry of the native-order address with the name cut to 64 bytes and zero-filled |
| `DnsService.Service.ProcessDNSEvent` | src/internal/bpf/dns/service.go:24-92 | the map afterwards is the result of writing the resolved destinations in order; an undecodable message changes nothing |
| `DnsService.WrittenFrom` | src/internal/bpf/dns/service.go:88-116 | whatever fails or is evicted, each entry was there before or belongs to a resolved destination |
| `DnsService.StoredIsMapped` | src/internal/bpf/dns/service.go:88-116 | a resolved address whose update is stored and not evicted by a later one is in the map afterwards, whatever happens to the other updates |
| `DnsService.LastWriteWins` | src/internal/bpf/dns/service.go:88-116 | it then holds the name of the last destination of that address whose update is stored |
| `DnsService.OthersKept` | src/internal/bpf/dns/service.go:104-116 | whatever the outcomes, an address that was not resolved gets no entry and no new name, and keeps its entry unless that is evicted: no other address shares its key, on either byte order |
| `FrameCapture.LocatePayload` | bpf/ai_interceptor.c:17-71 | the hook finds the payload offset and masked length of the layout, and rejects exactly the other frames; no 16-bit offset wraps |
| `FrameCapture.IsValidDnsResponse` | bpf/dns/helpers.h:6-23 | true exactly for at least 12 bytes with the QR bit set and a non-zero answer count |
| `FrameCapture.ResponseIff` | bpf/dns/helpers.h:6-23 | a message with the header of section 4.1.1 of RFC 1035 passes if and only if its flags are at least 0x8000 and its answer count is not 0 |
| `FrameCapture.KeptIff` | bpf/ai_interceptor.c:63-88 | such a message of at most 512 bytes is kept whole if it is a response with answers, and not at all otherwise; one of fewer than 12 bytes is never kept |
| `FrameCapture.LoadPayload` | bpf/ai_interceptor.c:79-87 | the copy never fails, and the response test then decides whether the frame is captured |
| `FrameCapture.CapturedIff` | bpf/ai_interceptor.c:17-91 | a frame gives a record if and only if it is a UDP or TCP packet from port 53, with any options, and the record is the kept part of its message |
| `FrameCapture.SizeAcceptedIff` | bpf/ai_interceptor.c:63-71 | the hook asks for ring space exactly for such packets whose message length modulo 1024 lies between 12 and 512 |
| `FrameCapture.UdpCaptured` | bpf/ai_interceptor.c:17-91 | of a UDP packet from port 53, with any IP options, exactly the kept part of its payload is captured |
| `FrameCapture.TcpCaptured` | bpf/ai_interceptor.c:46-58 | of a TCP segment from port 53, with any options, exactly the kept part of what follows the two-byte length is captured |
| `FrameCapture.WholeTailIff` | bpf/ai_interceptor.c:63-71 | a captured record is the whole frame tail if and only if the tail is shorter than 1024 bytes |
| `FrameCapture.LongAnswerTruncated` | bpf/ai_interceptor.c:63-71 | a concrete packet with a message of 1036 bytes of which the first 12 are captured |
| `RingRecords.SampleRoundTrip` | src/internal/bpf/reader.go:43-53 | the reader passes on exactly the captured bytes, on either byte order and whatever stale bytes follow |
| `RingRecords.SampleSafeIff` | src/internal/bpf/reader.go:47-53 | the reader slices out of range exactly for declared sizes of at least 2^63 - 8 |
| `RingRecords.SampleExactly` | src/internal/bpf/reader.go:43-53 | a message is passed on if and only if its declared size is positive and fits behind the first eight bytes, and then it is those bytes |
| `RingRecords.NullTermString` | src/internal/bpf/utils.go:9-17 | the scan returns the bytes before the first zero |
| `RingRecords.HostnameRoundTrip` | src/internal/bpf/dns/service.go:109-111 | a stored name is its first 64 bytes with zeros behind them, and reads back as those bytes if and only if they hold no zero |
| `RingRecords.NtohsInvolution` | src/internal/bpf/utils.go:34-38 | the conversion undoes itself on either byte order |
| `RingRecords.AddressRoundTrip` | src/internal/bpf/utils.go:27-31 | an address read in native order and laid out again is the same four octets |
| `RingRecords.RedirectRoundTrip` | src/internal/bpf/reader.go:85-99 | reading a submitted redirect record by the struct's offsets gives that redirect's log line, on either byte order |
| `RingRecords.RedirectEnds` | bpf/ai_interceptor.c:113-119 | the thread group and the time stand at their offsets in the 248-byte record, and a shorter sample is not read |
| `Kernel.Ring.Finish` | bpf/ai_interceptor.c:79-89 | a reservation is filled and then submitted or discarded, exactly once |
| `Kernel.Objects.TcDnsObserver` | bpf/ai_interceptor.c:14-91 | the hook reserves only for accepted sizes, submits exactly the captured frames, discards the rest, and leaves no reservation open |
| `Kernel.Objects.CgroupConnect4` | bpf/ai_interceptor.c:95-131 | a destination in the map is replaced by the proxy's address whether or not the event fits in the ring; any other is left alone |
| `Agent.Manager.WriteProxyConfig` | src/internal/bpf/manager.go:98-110 | the slot holds the configured address and port in network order, or the call fails and nothing changes |
| `Agent.SlotInNetworkOrder` | src/internal/bpf/manager.go:98-109 | in memory, on either byte order, the slot holds the four octets of the address and the port with its more significant byte first |
| `Agent.Manager.CloseLinks` | src/internal/bpf/manager.go:89-95 | exactly the links whose close succeeds are detached |
| `Agent.NewManager` | src/internal/bpf/manager.go:49-82 | start-up performs the three start-up steps in order, with the clean-up of the step that fails |
| `Agent.BootedOutcome` | src/internal/bpf/manager.go:59-81 | the whole state after start-up: both hooks and the slot exactly when every call succeeds and the address is IPv4; otherwise a failure with the connect hook off, and with the TC hook left only if it was attached and cannot be detached |
| `Agent.Manager.ReadDNSEvent` | src/internal/bpf/reader.go:33-55 | one turn takes the oldest record and processes the message it holds |
| `Agent.Manager.ReadRedirectEvent` | src/internal/bpf/reader.go:75-99 | one turn takes the oldest record and appends its line to the log |
| `Pipeline.NewManagerIsRun` | src/internal/bpf/manager.go:59-81 | what start-up brings about is a run of the step system |
| `Pipeline.InvRun` | bpf/ai_interceptor.c:14-131 | every state of every run satisfies the invariant behind the theorems below |
| `Pipeline.ConnectHookOnlyWithProxy` | src/internal/bpf/manager.go:59-79 | in every state of every run an attached connect hook implies the configured proxy slot, redirecting goes there and is idempotent, and a failed start leaves the hook off |
| `Pipeline.NoHookLeftBehind` | src/internal/bpf/manager.go:75-95 | if closing works, a failed start or a shutdown leaves no hook attached |
| `Pipeline.HooksLeft` | src/internal/bpf/manager.go:75-95 | a failed start or a shutdown detaches exactly the hooks whose links can be closed |
| `Pipeline.RingsDisciplined` | bpf/ai_interceptor.c:73-90 | in every run each reservation was submitted or discarded once, no reader faults, and each waiting DNS record is read as a response captured from a frame |
| `Pipeline.EveryRewriteHasReason` | bpf/ai_interceptor.c:96-130 | in every run each rewritten connection went to the address of an A record, in a message captured from a frame and processed before it, whose name is an AI name or the end of an in-order CNAME chain from one; the event carries that AI name cut to 64 bytes and the connection goes to the configured proxy |
| `Pipeline.LogAgreesWithRewrites` | src/internal/bpf/reader.go:85-99 | in every run the events sent are, in order, exactly the rewrites that found room; the log is the lines of the first of them, and each of the others waits in the ring, in order, to be read as its line |
| `Pipeline.EveryLogLineTrue` | src/internal/bpf/reader.go:91-99 | in every run, on either byte order, a log line reports the process, address and port of its connect call, the address and host belong to such an A record, and the proxy address and port are the configured ones |
| `Pipeline.OtherTrafficUntouched` | bpf/ai_interceptor.c:101-103 | in every state of every run, an address for which no processed message gives a reason is not redirected |
| `Pipeline.FrameQueued` | bpf/ai_interceptor.c:73-90 | with room in the ring, a frame adds exactly one record, read as the captured message, if it is captured, and nothing otherwise, and the reservation counts grow by what was asked for and submitted; without room nothing changes |
| `Pipeline.QueueAdvances` | src/internal/bpf/reader.go:31-56 | the DNS ring is read in order: after as many reads as there are older records, a record is next, whatever else happens |
| `Pipeline.ResolvedIsIntercepted` | bpf/ai_interceptor.c:101-128 | when the next message is read and its update for an address is stored, then after any events that do not evict the address a connect to it is rewritten to the proxy |
| `Pipeline.OrderedAnnounces` | src/internal/bpf/dns/service.go:33-89 | with ordered CNAME records and no empty domain, a message announces the address of every A record of an AI name or of a name reached from one |
| `Pipeline.AnswerIsIntercepted` | README.md:30-42 | the documented data flow, in any interleaving and with any backlog: once a captured DNS answer has been read and its update for an address stored, and as long as the address is not evicted after that, a connect to it goes to the proxy whenever the connect hook is attached |
| `Pipeline.EnoughReadsIntercept` | README.md:30-42 | for an answer that announces the address (an A record of an AI name or of the end of a latest chain from one), the same as soon as there have been more reads than older records, if no event evicts the address and no read refuses an update for it |

## Left out

- DNS wire decoding (`dns.Msg.Unpack`): an external library, modelled as an arbitrary function from bytes to an optional list of records.
- Lower-casing and trimming of non-ASCII HTTP data: the Unicode tables of the library are arbitrary functions, fixed only on ASCII.
- Sockets, dialling and deadlines: the model keeps the byte sequences and the target.
- `net.SplitHostPort` and `net.JoinHostPort`: whether a host carries a port is an arbitrary test, and a joined target is the pair of host and port, not its text.
- The copy back from upstream to the client (`io.Copy(conn, upstream)`): it does not touch the client's bytes.
- Kernel map, ring and LRU internals, netlink and cgroup attachment, loading of BPF objects: their answers are parameters of the steps. The lookup of the single proxy_config entry always succeeds.
- Interleavings inside one hook run or inside the processing of one message: each is one atomic step.
- A failing `bpf_probe_read_kernel`: the hostname copy is taken to succeed.
- The endless loops of the readers and their cancellation: one turn of each is modelled.
- Rendering an address as dotted text: log lines hold the four octets.
- The command line and the time to live: nothing acts on them. Padding and unwritten bytes of records are arbitrary.
- Configuration loading, the logger, `main` and the deployment files: wiring only.
- Signed and unsigned views of the same hostname byte (`int8` and `byte`) are one byte here.
