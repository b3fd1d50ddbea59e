/** The whole system: every interleaving of frames, deliveries, evictions, failed updates, connects, start-up and
    shutdown. */
module Pipeline {
  import opened Bytes
  import opened DomainMatch
  import opened CnamePass
  import opened FrameCapture
  import opened RingRecords
  import opened Kernel
  import opened Agent
  import DS = DnsService

  // ---------- Runs ----------

  /** A redirected connection: the call as the process made it, its event, how many messages had been processed and
      how many frames had been seen before it, whether the ring had room for the event, and the destination it got. */
  datatype Rewrite = Rewrite(ip: uint32, port: uint32, caller: Caller, ev: Redirect, seen: nat, framesSeen: nat,
                             room: bool, to: (uint32, uint32))

  /** The system with its history: frames seen by the TC hook, messages processed, connections rewritten, the
      positions of the rewrites whose event was submitted, the log, and whether a reader ever faulted. */
  datatype Sys = Sys(k: State, boot: Boot, frames: seq<Frame>, messages: seq<seq<byte>>, rewrites: seq<Rewrite>,
                     events: seq<nat>, log: seq<LogLine>, fault: bool)

  const START := Sys(LOADED, BOOT, [], [], [], [], [], false)

  datatype Event =
    | FrameIn(frame: Frame, room: bool, stale: Stale)
    | ReadDns(env: seq<DS.UpdateOutcome>)
    | Evict(keys: set<uint32>)
    | Connect(ip: uint32, port: uint32, caller: Caller, room: bool, staleEvent: StaleEvent)
    | ReadLog
    | BootNext(ok: bool, closes: set<Hook>)

  function OnFrame(cfg: Config, s: Sys, f: Frame, room: bool, stale: Stale): Sys {
    if Tc !in s.k.attached then s
    else s.(k := s.k.(dns := AfterFrame(cfg.e, s.k.dns, f, room, stale)), frames := s.frames + [f])
  }

  function OnReadDns(cfg: Config, s: Sys, env: seq<DS.UpdateOutcome>): Sys {
    if s.k.dns.queue == [] then s
    else
      var sample := ReadSample(cfg.e, s.k.dns.queue[0]);
      s.(k := AfterReadDns(cfg, s.k, env),
         messages := if sample.Message? then s.messages + [sample.bytes] else s.messages,
         fault := s.fault || sample.OutOfRange?)
  }

  function RewriteOf(s: Sys, ip: uint32, port: uint32, c: Caller, room: bool): Rewrite
    requires ip in s.k.dest
  {
    Rewrite(ip, port, c, EventOf(s.k, ip, port, c), |s.messages|, |s.frames|, room, Rerouted(s.k, ip, port))
  }

  function OnConnect(cfg: Config, s: Sys, ip: uint32, port: uint32, c: Caller, room: bool, stale: StaleEvent): Sys {
    if Connect4 !in s.k.attached || ip !in s.k.dest then s
    else s.(k := AfterConnect(cfg.e, s.k, ip, port, c, room, stale),
            rewrites := s.rewrites + [RewriteOf(s, ip, port, c, room)],
            events := if room then s.events + [|s.rewrites|] else s.events)
  }

  function OnReadLog(cfg: Config, s: Sys): Sys {
    if s.k.redirects.queue == [] then s
    else s.(k := AfterReadRedirect(s.k), log := s.log + Logged(cfg.e, s.k.redirects.queue[0]))
  }

  function OnBoot(cfg: Config, s: Sys, ok: bool, closes: set<Hook>): Sys
    requires cfg.Valid()
  {
    var (k, boot) := BootStep(cfg, s.k, s.boot, ok, closes);
    s.(k := k, boot := boot)
  }

  function Next(cfg: Config, s: Sys, ev: Event): Sys
    requires cfg.Valid()
  {
    match ev
    case FrameIn(f, room, stale) => OnFrame(cfg, s, f, room, stale)
    case ReadDns(env) => OnReadDns(cfg, s, env)
    case Evict(keys) => s.(k := s.k.(dest := s.k.dest - keys))
    case Connect(ip, port, c, room, stale) => OnConnect(cfg, s, ip, port, c, room, stale)
    case ReadLog => OnReadLog(cfg, s)
    case BootNext(ok, closes) => OnBoot(cfg, s, ok, closes)
  }

  /** The state after the events `evs`, in any order and number. */
  function Run(cfg: Config, evs: seq<Event>): Sys
    requires cfg.Valid()
  {
    if evs == [] then START else Next(cfg, Run(cfg, evs[..|evs| - 1]), evs[|evs| - 1])
  }

  // ---------- Start-up ----------

  predicate SlotReady(cfg: Config, s: Sys)
    requires cfg.Valid()
  {
    cfg.proxyIp.Some? && s.k.proxy == ConfiguredSlot(cfg)
  }

  predicate BootInv(cfg: Config, s: Sys)
    requires cfg.Valid()
  {
    && (Connect4 in s.k.attached ==> SlotReady(cfg, s))
    && match s.boot.phase
       case Loaded => s.k.attached == {} && s.boot.links == []
       case Configured => SlotReady(cfg, s) && s.k.attached == {} && s.boot.links == []
       case TcOn => SlotReady(cfg, s) && s.k.attached == {Tc} && s.boot.links == [Tc]
       case Running => SlotReady(cfg, s) && s.k.attached == {Tc, Connect4} && s.boot.links == [Tc, Connect4]
       case Failed => Connect4 !in s.k.attached && s.boot.links == []
       case Closed => SlotReady(cfg, s) && s.boot.links == []
  }

  lemma BootInvNext(cfg: Config, s: Sys, ev: Event)
    requires cfg.Valid() && BootInv(cfg, s)
    ensures BootInv(cfg, Next(cfg, s, ev))
  {
  }

  // ---------- From frames to messages ----------

  ghost predicate CapturedFrom(frames: seq<Frame>, msg: seq<byte>) {
    exists i :: 0 <= i < |frames| && Captured(frames[i]) == Some(msg)
  }

  /** `raw` is the record of a message captured from one of the frames. */
  ghost predicate RecordFrom(e: Endian, frames: seq<Frame>, raw: seq<byte>) {
    exists i, stale: Stale ::
      0 <= i < |frames| && Captured(frames[i]).Some? && raw == DnsEvent(e, Captured(frames[i]).value, stale)
  }

  ghost predicate DnsInv(cfg: Config, s: Sys) {
    && !s.fault && s.k.dns.Settled()
    && (forall i :: 0 <= i < |s.k.dns.queue| ==> RecordFrom(cfg.e, s.frames, s.k.dns.queue[i]))
    && (forall i :: 0 <= i < |s.messages| ==> CapturedFrom(s.frames, s.messages[i]))
  }

  lemma MoreFrames(e: Endian, frames: seq<Frame>, f: Frame, raw: seq<byte>)
    ensures CapturedFrom(frames, raw) ==> CapturedFrom(frames + [f], raw)
    ensures RecordFrom(e, frames, raw) ==> RecordFrom(e, frames + [f], raw)
  {
    var more := frames + [f];
    if CapturedFrom(frames, raw) {
      var i :| 0 <= i < |frames| && Captured(frames[i]) == Some(raw);
      assert Captured(more[i]) == Some(raw);
    }
    if RecordFrom(e, frames, raw) {
      var i, stale: Stale :| 0 <= i < |frames| && Captured(frames[i]).Some?
                             && raw == DnsEvent(e, Captured(frames[i]).value, stale);
      assert raw == DnsEvent(e, Captured(more[i]).value, stale);
    }
  }

  lemma FrameKeepsDns(cfg: Config, s: Sys, f: Frame, room: bool, stale: Stale)
    requires DnsInv(cfg, s)
    ensures DnsInv(cfg, OnFrame(cfg, s, f, room, stale))
  {
    var s' := OnFrame(cfg, s, f, room, stale);
    if Tc in s.k.attached {
      forall i | 0 <= i < |s'.k.dns.queue| ensures RecordFrom(cfg.e, s'.frames, s'.k.dns.queue[i]) {
        if i < |s.k.dns.queue| {
          MoreFrames(cfg.e, s.frames, f, s.k.dns.queue[i]);
        } else {
          assert s'.frames[|s.frames|] == f;
        }
      }
      forall i | 0 <= i < |s'.messages| ensures CapturedFrom(s'.frames, s'.messages[i]) {
        MoreFrames(cfg.e, s.frames, f, s.messages[i]);
      }
    }
  }

  /** A queued record always decodes to a message that was captured from a frame. */
  lemma QueuedRecordDecodes(cfg: Config, s: Sys, i: nat)
    requires DnsInv(cfg, s) && i < |s.k.dns.queue|
    ensures var sample := ReadSample(cfg.e, s.k.dns.queue[i]);
            sample.Message? && CapturedFrom(s.frames, sample.bytes) && IsResponse(sample.bytes)
            && DNS_HDR_MIN_LEN <= |sample.bytes| <= MAX_DNS_MSG_SIZE
  {
    var raw := s.k.dns.queue[i];
    var j, stale: Stale :| 0 <= j < |s.frames| && Captured(s.frames[j]).Some?
                           && raw == DnsEvent(cfg.e, Captured(s.frames[j]).value, stale);
    SampleRoundTrip(cfg.e, Captured(s.frames[j]).value, stale);
  }

  lemma ReadKeepsDns(cfg: Config, s: Sys, env: seq<DS.UpdateOutcome>)
    requires DnsInv(cfg, s)
    ensures DnsInv(cfg, OnReadDns(cfg, s, env))
  {
    if s.k.dns.queue != [] {
      QueuedRecordDecodes(cfg, s, 0);
    }
  }

  lemma DnsInvNext(cfg: Config, s: Sys, ev: Event)
    requires cfg.Valid() && DnsInv(cfg, s)
    ensures DnsInv(cfg, Next(cfg, s, ev))
  {
    match ev
    case FrameIn(f, room, stale) => FrameKeepsDns(cfg, s, f, room, stale);
    case ReadDns(env) => ReadKeepsDns(cfg, s, env);
    case _ =>
  }

  // ---------- From messages to map entries ----------

  /** Processing `msg` can put the entry `key`, `name` into the map. */
  ghost predicate Yields(cfg: Config, msg: seq<byte>, key: uint32, name: DS.HostField) {
    && cfg.unpack(msg).Some?
    && exists d :: d in Resolved(cfg.domains, cfg.unpack(msg).value)
                   && |d.ip| == 4 && Get32(cfg.e, d.ip) == key && DS.StoredName(d.host) == name
  }

  /** One of the first `n` messages yields the entry. */
  ghost predicate Justified(cfg: Config, messages: seq<seq<byte>>, n: nat, key: uint32, name: DS.HostField) {
    n <= |messages| && exists j :: 0 <= j < n && Yields(cfg, messages[j], key, name)
  }

  lemma MoreMessages(cfg: Config, messages: seq<seq<byte>>, more: seq<seq<byte>>, n: nat, n': nat, key: uint32,
                     name: DS.HostField)
    requires Justified(cfg, messages, n, key, name) && messages <= more && n <= n' <= |more|
    ensures Justified(cfg, more, n', key, name)
  {
    var j :| 0 <= j < n && Yields(cfg, messages[j], key, name);
    assert more[j] == messages[j];
  }

  ghost predicate DestInv(cfg: Config, s: Sys) {
    forall key :: key in s.k.dest ==> Justified(cfg, s.messages, |s.messages|, key, s.k.dest[key])
  }

  lemma ProcessedYields(cfg: Config, dest: DS.Entries, msg: seq<byte>, env: seq<DS.UpdateOutcome>, key: uint32)
    requires key in DS.Processed(cfg.e, cfg.domains, cfg.unpack, dest, msg, env)
    ensures var name := DS.Processed(cfg.e, cfg.domains, cfg.unpack, dest, msg, env)[key];
            (key in dest && name == dest[key]) || Yields(cfg, msg, key, name)
  {
    if cfg.unpack(msg).Some? {
      var ans := cfg.unpack(msg).value;
      DS.DestinationsAreIPv4(cfg.domains, Aliases(cfg.domains, ans, |ans|), ans, |ans|);
      DS.WrittenFrom(cfg.e, dest, Resolved(cfg.domains, ans), env, key);
    }
  }

  lemma DestInvNext(cfg: Config, s: Sys, ev: Event)
    requires cfg.Valid() && DestInv(cfg, s)
    ensures DestInv(cfg, Next(cfg, s, ev))
  {
    if ev.ReadDns? && s.k.dns.queue != [] {
      var sample := ReadSample(cfg.e, s.k.dns.queue[0]);
      var s' := Next(cfg, s, ev);
      if sample.Message? {
        forall key | key in s'.k.dest ensures Justified(cfg, s'.messages, |s'.messages|, key, s'.k.dest[key]) {
          ProcessedYields(cfg, s.k.dest, sample.bytes, ev.env, key);
          if key in s.k.dest && s'.k.dest[key] == s.k.dest[key] {
            MoreMessages(cfg, s.messages, s'.messages, |s.messages|, |s'.messages|, key, s.k.dest[key]);
          } else {
            assert s'.messages[|s.messages|] == sample.bytes;
          }
        }
      }
    }
  }

  // ---------- Rewrites ----------

  /** The first `n` messages were all captured from the first `m` frames. */
  ghost predicate CapturedBy(frames: seq<Frame>, messages: seq<seq<byte>>, n: nat, m: nat) {
    n <= |messages| && m <= |frames| && forall j :: 0 <= j < n ==> CapturedFrom(frames[..m], messages[j])
  }

  ghost predicate RewriteOk(cfg: Config, frames: seq<Frame>, messages: seq<seq<byte>>, w: Rewrite)
    requires cfg.Valid()
  {
    && Justified(cfg, messages, w.seen, w.ip, w.ev.hostname) && CapturedBy(frames, messages, w.seen, w.framesSeen)
    && w.ev.originalIp == w.ip && w.ev.originalPort == w.port % 0x1_0000
    && w.ev.pid == w.caller.pidTgid % 0x1_0000_0000 && w.ev.tgid == w.caller.pidTgid / 0x1_0000_0000
    && w.ev.command == w.caller.command && w.ev.timestamp == w.caller.now
    && cfg.proxyIp.Some?
    && ProxySlot(w.ev.proxyIp, w.ev.proxyPort) == ConfiguredSlot(cfg)
    && w.to == (ConfiguredSlot(cfg).ip, ConfiguredSlot(cfg).port)
  }

  ghost predicate RewriteInv(cfg: Config, s: Sys)
    requires cfg.Valid()
  {
    forall i :: 0 <= i < |s.rewrites| ==> RewriteOk(cfg, s.frames, s.messages, s.rewrites[i])
  }

  lemma NewRewriteOk(cfg: Config, s: Sys, ip: uint32, port: uint32, c: Caller, room: bool)
    requires cfg.Valid() && BootInv(cfg, s) && DnsInv(cfg, s) && DestInv(cfg, s)
    requires Connect4 in s.k.attached && ip in s.k.dest
    ensures RewriteOk(cfg, s.frames, s.messages, RewriteOf(s, ip, port, c, room))
  {
    assert s.frames[..|s.frames|] == s.frames;
  }

  /** A rewrite stays justified when more frames and messages arrive. */
  lemma OldRewriteOk(cfg: Config, s: Sys, frames: seq<Frame>, messages: seq<seq<byte>>, w: Rewrite)
    requires cfg.Valid() && RewriteOk(cfg, s.frames, s.messages, w) && s.frames <= frames && s.messages <= messages
    ensures RewriteOk(cfg, frames, messages, w)
  {
    MoreMessages(cfg, s.messages, messages, w.seen, w.seen, w.ip, w.ev.hostname);
    assert frames[..w.framesSeen] == s.frames[..w.framesSeen];
  }

  lemma HistoryGrows(cfg: Config, s: Sys, ev: Event)
    requires cfg.Valid()
    ensures var s' := Next(cfg, s, ev);
            && s.frames <= s'.frames && s.messages <= s'.messages
            && (s'.rewrites == s.rewrites ||
                (ev.Connect? && Connect4 in s.k.attached && ev.ip in s.k.dest
                 && s'.frames == s.frames && s'.messages == s.messages
                 && s'.rewrites == s.rewrites + [RewriteOf(s, ev.ip, ev.port, ev.caller, ev.room)]))
  {
  }

  lemma RewriteInvNext(cfg: Config, s: Sys, ev: Event)
    requires cfg.Valid() && BootInv(cfg, s) && DnsInv(cfg, s) && DestInv(cfg, s) && RewriteInv(cfg, s)
    ensures RewriteInv(cfg, Next(cfg, s, ev))
  {
    var s' := Next(cfg, s, ev);
    HistoryGrows(cfg, s, ev);
    forall i | 0 <= i < |s'.rewrites| ensures RewriteOk(cfg, s'.frames, s'.messages, s'.rewrites[i]) {
      if i < |s.rewrites| {
        OldRewriteOk(cfg, s, s'.frames, s'.messages, s.rewrites[i]);
      } else {
        NewRewriteOk(cfg, s, ev.ip, ev.port, ev.caller, ev.room);
      }
    }
  }

  // ---------- Events and log ----------

  ghost predicate EventFor(e: Endian, raw: seq<byte>, ev: Redirect) {
    exists stale: StaleEvent :: raw == RedirectEvent(e, ev, stale)
  }

  /** `events` lists, in order, exactly the rewrites whose event found room. */
  ghost predicate Picked(rewrites: seq<Rewrite>, events: seq<nat>) {
    && (forall i :: 0 <= i < |events| ==> events[i] < |rewrites| && rewrites[events[i]].room)
    && (forall i, j :: 0 <= i < j < |events| ==> events[i] < events[j])
    && (forall k :: 0 <= k < |rewrites| && rewrites[k].room ==> k in events)
  }

  /** The redirects at the positions `events`. */
  ghost function Sent(rewrites: seq<Rewrite>, events: seq<nat>): seq<Redirect>
    requires Picked(rewrites, events)
  {
    seq(|events|, i requires 0 <= i < |events| => rewrites[events[i]].ev)
  }

  ghost predicate Lines(e: Endian, sent: seq<Redirect>, log: seq<LogLine>) {
    |sent| == |log| && forall i :: 0 <= i < |log| ==> log[i] == LineOf(e, sent[i])
  }

  ghost predicate Records(e: Endian, sent: seq<Redirect>, queue: seq<seq<byte>>) {
    |sent| == |queue| && forall i :: 0 <= i < |queue| ==> EventFor(e, queue[i], sent[i])
  }

  /** The log holds the lines of the first redirects sent, and the ring the records of the others. */
  ghost predicate LogOk(e: Endian, sent: seq<Redirect>, log: seq<LogLine>, queue: seq<seq<byte>>) {
    |log| <= |sent| && Lines(e, sent[..|log|], log) && Records(e, sent[|log|..], queue)
  }

  ghost predicate LogInv(cfg: Config, s: Sys) {
    && s.k.redirects.Settled() && Picked(s.rewrites, s.events)
    && LogOk(cfg.e, Sent(s.rewrites, s.events), s.log, s.k.redirects.queue)
  }

  lemma PickedWithoutEvent(rewrites: seq<Rewrite>, events: seq<nat>, w: Rewrite)
    requires Picked(rewrites, events) && !w.room
    ensures Picked(rewrites + [w], events)
  {
    var more := rewrites + [w];
    forall i | 0 <= i < |events| ensures events[i] < |more| && more[events[i]].room {
      assert more[events[i]] == rewrites[events[i]];
    }
    forall k | 0 <= k < |more| && more[k].room ensures k in events {
      assert more[k] == rewrites[k];
    }
  }

  lemma PickedWithEvent(rewrites: seq<Rewrite>, events: seq<nat>, w: Rewrite)
    requires Picked(rewrites, events) && w.room
    ensures Picked(rewrites + [w], events + [|rewrites|])
  {
    var more, events' := rewrites + [w], events + [|rewrites|];
    forall i | 0 <= i < |events'| ensures events'[i] < |more| && more[events'[i]].room {
      if i < |events| {
        assert events'[i] == events[i] && more[events[i]] == rewrites[events[i]];
      }
    }
    forall k | 0 <= k < |more| && more[k].room ensures k in events' {
      if k < |rewrites| {
        assert more[k] == rewrites[k] && k in events;
      } else {
        assert events'[|events|] == k;
      }
    }
  }

  lemma SentMore(rewrites: seq<Rewrite>, events: seq<nat>, w: Rewrite, events': seq<nat>)
    requires Picked(rewrites, events) && Picked(rewrites + [w], events')
    ensures events' == events ==> Sent(rewrites + [w], events') == Sent(rewrites, events)
    ensures events' == events + [|rewrites|] ==> Sent(rewrites + [w], events') == Sent(rewrites, events) + [w.ev]
  {
  }

  lemma LogOkSend(e: Endian, sent: seq<Redirect>, log: seq<LogLine>, queue: seq<seq<byte>>, raw: seq<byte>,
                  ev: Redirect)
    requires LogOk(e, sent, log, queue) && EventFor(e, raw, ev)
    ensures LogOk(e, sent + [ev], log, queue + [raw])
  {
    assert (sent + [ev])[..|log|] == sent[..|log|];
    assert (sent + [ev])[|log|..] == sent[|log|..] + [ev];
  }

  lemma EventLogged(e: Endian, raw: seq<byte>, ev: Redirect)
    requires EventFor(e, raw, ev)
    ensures ReadRedirect(e, raw) == Some(LineOf(e, ev)) && Logged(e, raw) == [LineOf(e, ev)]
  {
    var stale: StaleEvent :| raw == RedirectEvent(e, ev, stale);
    RedirectRoundTrip(e, ev, stale);
  }

  lemma LogOkRead(e: Endian, sent: seq<Redirect>, log: seq<LogLine>, queue: seq<seq<byte>>)
    requires LogOk(e, sent, log, queue) && queue != []
    ensures LogOk(e, sent, log + Logged(e, queue[0]), queue[1..])
  {
    var n := |log|;
    assert EventFor(e, queue[0], sent[n..][0]);
    EventLogged(e, queue[0], sent[n]);
    LogOkPop(e, sent, log, queue, LineOf(e, sent[n]));
  }

  lemma LogOkPop(e: Endian, sent: seq<Redirect>, log: seq<LogLine>, queue: seq<seq<byte>>, line: LogLine)
    requires LogOk(e, sent, log, queue) && queue != [] && line == LineOf(e, sent[|log|])
    ensures LogOk(e, sent, log + [line], queue[1..])
  {
    var n := |log|;
    assert sent[..n + 1] == sent[..n] + [sent[n]] && sent[n + 1..] == sent[n..][1..];
  }

  lemma ConnectKeepsLog(cfg: Config, s: Sys, ip: uint32, port: uint32, c: Caller, room: bool, stale: StaleEvent)
    requires LogInv(cfg, s)
    ensures LogInv(cfg, OnConnect(cfg, s, ip, port, c, room, stale))
  {
    if Connect4 in s.k.attached && ip in s.k.dest {
      var ev := EventOf(s.k, ip, port, c);
      var w := RewriteOf(s, ip, port, c, room);
      if room {
        var raw := RedirectEvent(cfg.e, ev, stale);
        assert EventFor(cfg.e, raw, ev);
        PickedWithEvent(s.rewrites, s.events, w);
        SentMore(s.rewrites, s.events, w, s.events + [|s.rewrites|]);
        LogOkSend(cfg.e, Sent(s.rewrites, s.events), s.log, s.k.redirects.queue, raw, ev);
      } else {
        PickedWithoutEvent(s.rewrites, s.events, w);
        SentMore(s.rewrites, s.events, w, s.events);
      }
    }
  }

  lemma LogInvNext(cfg: Config, s: Sys, ev: Event)
    requires cfg.Valid() && LogInv(cfg, s)
    ensures LogInv(cfg, Next(cfg, s, ev))
  {
    if ev.Connect? {
      ConnectKeepsLog(cfg, s, ev.ip, ev.port, ev.caller, ev.room, ev.staleEvent);
    } else if ev.ReadLog? {
      if s.k.redirects.queue != [] {
        LogOkRead(cfg.e, Sent(s.rewrites, s.events), s.log, s.k.redirects.queue);
      }
    } else {
      OthersKeepLog(cfg, s, ev);
    }
  }

  /** No other step touches the rewrites, the events, the log or the redirect ring. */
  lemma OthersKeepLog(cfg: Config, s: Sys, ev: Event)
    requires cfg.Valid() && !ev.Connect? && !ev.ReadLog?
    ensures var s' := Next(cfg, s, ev);
            s'.rewrites == s.rewrites && s'.events == s.events && s'.log == s.log && s'.k.redirects == s.k.redirects
  {
  }

  // ---------- Every run ----------

  ghost predicate Inv(cfg: Config, s: Sys)
    requires cfg.Valid()
  {
    BootInv(cfg, s) && DnsInv(cfg, s) && DestInv(cfg, s) && RewriteInv(cfg, s) && LogInv(cfg, s)
  }

  lemma InvNext(cfg: Config, s: Sys, ev: Event)
    requires cfg.Valid() && Inv(cfg, s)
    ensures Inv(cfg, Next(cfg, s, ev))
  {
    BootInvNext(cfg, s, ev);
    DnsInvNext(cfg, s, ev);
    DestInvNext(cfg, s, ev);
    RewriteInvNext(cfg, s, ev);
    LogInvNext(cfg, s, ev);
  }

  /** Where nothing has been rewritten yet, there is nothing to log. */
  lemma LogInvInitially(cfg: Config, s: Sys)
    requires s.k.redirects.Settled() && |s.k.redirects.queue| == 0
    requires |s.rewrites| == 0 && |s.events| == 0 && |s.log| == 0
    ensures LogInv(cfg, s)
  {
  }

  /** The invariant holds where nothing has happened yet. */
  lemma InvInitially(cfg: Config, s: Sys)
    requires cfg.Valid() && s.boot == BOOT && s.k.attached == {} && s.k.dest == map[] && !s.fault
    requires s.k.dns.Settled() && |s.k.dns.queue| == 0 && s.k.redirects.Settled() && |s.k.redirects.queue| == 0
    requires |s.messages| == 0 && |s.rewrites| == 0 && |s.events| == 0 && |s.log| == 0
    ensures Inv(cfg, s)
  {
    LogInvInitially(cfg, s);
  }

  /** Every state of every run satisfies the invariant. */
  lemma {:induction false} InvRun(cfg: Config, evs: seq<Event>)
    requires cfg.Valid()
    ensures Inv(cfg, Run(cfg, evs))
  {
    if evs == [] {
      InvInitially(cfg, START);
    } else {
      InvRun(cfg, evs[..|evs| - 1]);
      InvNext(cfg, Run(cfg, evs[..|evs| - 1]), evs[|evs| - 1]);
    }
  }

  /** Start-up safety: whenever the connect hook is attached, the proxy slot holds the configured address, so a
      redirected connection goes there and a second run of the hook would leave it there; a failed start never leaves
      the hook attached. */
  lemma {:induction false} ConnectHookOnlyWithProxy(cfg: Config, evs: seq<Event>, ip: uint32, port: uint32)
    requires cfg.Valid()
    ensures var s := Run(cfg, evs);
            var to := Rerouted(s.k, ip, port);
            && (Connect4 in s.k.attached ==> cfg.proxyIp.Some? && s.k.proxy == ConfiguredSlot(cfg))
            && (Connect4 in s.k.attached && ip in s.k.dest ==> to == (ConfiguredSlot(cfg).ip, ConfiguredSlot(cfg).port))
            && Rerouted(s.k, to.0, to.1) == to
            && (s.boot.phase == Failed ==> Connect4 !in s.k.attached)
  {
    InvRun(cfg, evs);
  }

  /** The start-up code, when nothing else happens in between, is the run of these three steps. */
  function BootEvents(env: BootEnv): seq<Event> {
    [BootNext(env.updateOk, env.closes)]
    + [BootNext(env.ifaceOk && !env.qdisc.Refused? && env.filterOk, env.closes)]
    + [BootNext(env.cgroupOk, env.closes)]
  }

  lemma RunOfThree(cfg: Config, e1: Event, e2: Event, e3: Event)
    requires cfg.Valid()
    ensures Run(cfg, [e1] + [e2] + [e3]) == Next(cfg, Next(cfg, Next(cfg, START, e1), e2), e3)
  {
    RunOneMore(cfg, [], e1);
    assert [] + [e1] == [e1];
    RunOneMore(cfg, [e1], e2);
    RunOneMore(cfg, [e1] + [e2], e3);
  }

  /** What NewManager brings about is a run, so all that holds of runs holds of it. */
  lemma {:induction false} NewManagerIsRun(cfg: Config, env: BootEnv)
    requires cfg.Valid()
    ensures (Run(cfg, BootEvents(env)).k, Run(cfg, BootEvents(env)).boot) == Booted(cfg, env)
  {
    RunOfThree(cfg, BootNext(env.updateOk, env.closes),
               BootNext(env.ifaceOk && !env.qdisc.Refused? && env.filterOk, env.closes),
               BootNext(env.cgroupOk, env.closes));
  }

  lemma DetachedLinks(attached: set<Hook>, links: seq<Hook>, closes: set<Hook>)
    requires forall h :: h in attached ==> h in links
    ensures Detached(attached, links, closes) == attached - closes
  {
  }

  /** A failed start-up step or a shutdown detaches exactly the hooks whose links can be closed. */
  lemma {:induction false} HooksLeft(cfg: Config, s: Sys, ok: bool, closes: set<Hook>)
    requires cfg.Valid() && Inv(cfg, s) && !s.boot.phase.Failed? && !s.boot.phase.Closed?
    ensures var s' := OnBoot(cfg, s, ok, closes);
            s'.boot.phase.Failed? || s'.boot.phase.Closed? ==> s'.k.attached == s.k.attached - closes
  {
    if s.boot.phase.TcOn? || s.boot.phase.Running? {
      DetachedLinks(s.k.attached, s.boot.links, closes);
    }
  }

  /** If closing works, a failed start-up or a shutdown leaves no hook attached. */
  lemma {:induction false} NoHookLeftBehind(cfg: Config, s: Sys, ok: bool, closes: set<Hook>)
    requires cfg.Valid() && Inv(cfg, s) && Tc in closes && Connect4 in closes
    requires !s.boot.phase.Failed? && !s.boot.phase.Closed?
    ensures var s' := OnBoot(cfg, s, ok, closes);
            s'.boot.phase.Failed? || s'.boot.phase.Closed? ==> s'.k.attached == {}
  {
    HooksLeft(cfg, s, ok, closes);
  }

  /** Ring discipline: every reservation was submitted or discarded once, no reader ever faults, and every record
      waiting in the DNS ring is read as a DNS response with answers that came out of a frame. */
  lemma {:induction false} RingsDisciplined(cfg: Config, evs: seq<Event>, i: nat)
    requires cfg.Valid()
    ensures var s := Run(cfg, evs);
            && s.k.dns.Settled() && s.k.redirects.Settled() && !s.fault
            && (i < |s.k.dns.queue| ==>
                  var sample := ReadSample(cfg.e, s.k.dns.queue[i]);
                  sample.Message? && CapturedFrom(s.frames, sample.bytes) && IsResponse(sample.bytes))
  {
    InvRun(cfg, evs);
    if i < |Run(cfg, evs).k.dns.queue| {
      QueuedRecordDecodes(cfg, Run(cfg, evs), i);
    }
  }

  /** The AI name `host` is the reason for treating the address `octets` as an AI destination: one of the first `n`
      messages processed, captured from one of the first `m` frames, has an A record of that address which `host`
      explains. */
  ghost predicate Reason(cfg: Config, s: Sys, n: nat, m: nat, octets: seq<byte>, host: Name) {
    n <= |s.messages| && m <= |s.frames| &&
    exists j :: 0 <= j < n && CapturedFrom(s.frames[..m], s.messages[j])
                && MessageExplains(cfg, s.messages[j], octets, host)
  }

  ghost predicate MessageExplains(cfg: Config, msg: seq<byte>, octets: seq<byte>, host: Name) {
    && cfg.unpack(msg).Some?
    && var ans := cfg.unpack(msg).value;
       exists a :: 0 <= a < |ans| && Explains(cfg.domains, ans, ans[a], host) && HoldsOctets(ans[a].ip, octets)
  }

  lemma YieldsExplains(cfg: Config, msg: seq<byte>, key: uint32, name: DS.HostField)
    requires Yields(cfg, msg, key, name)
    ensures exists host :: MessageExplains(cfg, msg, Put(cfg.e, key, 4), host) && name == DS.StoredName(host)
  {
    var ans := cfg.unpack(msg).value;
    var d :| d in Resolved(cfg.domains, ans) && |d.ip| == 4 && Get32(cfg.e, d.ip) == key
             && DS.StoredName(d.host) == name;
    ResolvedExactly(cfg.domains, ans, d);
    AddressRoundTrip(cfg.e, d.ip);
    assert MessageExplains(cfg, msg, Put(cfg.e, key, 4), d.host);
  }

  lemma JustifiedHasReason(cfg: Config, s: Sys, n: nat, m: nat, key: uint32, name: DS.HostField)
    requires Justified(cfg, s.messages, n, key, name) && CapturedBy(s.frames, s.messages, n, m)
    ensures exists host :: Reason(cfg, s, n, m, Put(cfg.e, key, 4), host) && name == DS.StoredName(host)
  {
    var j :| 0 <= j < n && Yields(cfg, s.messages[j], key, name);
    YieldsExplains(cfg, s.messages[j], key, name);
    var host :| MessageExplains(cfg, s.messages[j], Put(cfg.e, key, 4), host) && name == DS.StoredName(host);
    assert Reason(cfg, s, n, m, Put(cfg.e, key, 4), host);
  }

  /** Provenance: every rewritten connection went to the address of an A record in a message that was captured from a
      frame and processed before the connect, whose owner is an AI name or is reached from one by an in-order CNAME
      chain; the event carries that AI name cut to 64 bytes; and the connection was sent to the configured proxy. */
  lemma {:induction false} EveryRewriteHasReason(cfg: Config, evs: seq<Event>, i: nat)
    requires cfg.Valid() && i < |Run(cfg, evs).rewrites|
    ensures var s := Run(cfg, evs);
            var w := s.rewrites[i];
            && (exists host :: Reason(cfg, s, w.seen, w.framesSeen, Put(cfg.e, w.ip, 4), host)
                               && w.ev.hostname == DS.StoredName(host))
            && cfg.proxyIp.Some? && w.to == (Get32(cfg.e, cfg.proxyIp.value), Ntohs(cfg.e, cfg.proxyPort) as uint32)
  {
    InvRun(cfg, evs);
    var s := Run(cfg, evs);
    var w := s.rewrites[i];
    assert RewriteOk(cfg, s.frames, s.messages, w);
    JustifiedHasReason(cfg, s, w.seen, w.framesSeen, w.ip, w.ev.hostname);
  }

  /** The events sent are, in order, the rewrites whose event found room; the log is the lines of the first of them,
      and each of the others still waits in the ring, in order, to be read as its line. */
  ghost predicate LogAgrees(cfg: Config, s: Sys) {
    var queue := s.k.redirects.queue;
    && Picked(s.rewrites, s.events) && |s.events| == |s.log| + |queue|
    && (forall i :: 0 <= i < |s.log| ==> s.log[i] == LineOf(cfg.e, s.rewrites[s.events[i]].ev))
    && (forall i :: 0 <= i < |queue| ==>
          ReadRedirect(cfg.e, queue[i]) == Some(LineOf(cfg.e, s.rewrites[s.events[|s.log| + i]].ev)))
  }

  lemma LogInvAgrees(cfg: Config, s: Sys)
    requires LogInv(cfg, s)
    ensures LogAgrees(cfg, s)
  {
    forall i | 0 <= i < |s.log| ensures s.log[i] == LineOf(cfg.e, s.rewrites[s.events[i]].ev) {
      LoggedLine(cfg, s, i);
    }
    forall i | 0 <= i < |s.k.redirects.queue|
      ensures ReadRedirect(cfg.e, s.k.redirects.queue[i]) == Some(LineOf(cfg.e, s.rewrites[s.events[|s.log| + i]].ev))
    {
      WaitingLine(cfg, s, i);
    }
  }

  /** In every state of every run the log agrees with the rewrites; a full ring drops only the event. */
  lemma {:induction false} LogAgreesWithRewrites(cfg: Config, evs: seq<Event>)
    requires cfg.Valid()
    ensures LogAgrees(cfg, Run(cfg, evs))
  {
    InvRun(cfg, evs);
    LogInvAgrees(cfg, Run(cfg, evs));
  }

  lemma LoggedLine(cfg: Config, s: Sys, i: nat)
    requires LogInv(cfg, s) && i < |s.log|
    ensures |s.events| == |s.log| + |s.k.redirects.queue|
    ensures s.log[i] == LineOf(cfg.e, s.rewrites[s.events[i]].ev)
  {
    assert s.log[i] == LineOf(cfg.e, Sent(s.rewrites, s.events)[..|s.log|][i]);
  }

  lemma WaitingLine(cfg: Config, s: Sys, i: nat)
    requires LogInv(cfg, s) && i < |s.k.redirects.queue|
    ensures |s.events| == |s.log| + |s.k.redirects.queue|
    ensures ReadRedirect(cfg.e, s.k.redirects.queue[i]) == Some(LineOf(cfg.e, s.rewrites[s.events[|s.log| + i]].ev))
  {
    var sent := Sent(s.rewrites, s.events);
    assert EventFor(cfg.e, s.k.redirects.queue[i], sent[|s.log|..][i]);
    EventLogged(cfg.e, s.k.redirects.queue[i], sent[|s.log| + i]);
  }

  /** Every log line is true of the connection it reports, on either byte order: the process, the address and the port
      are those of the call; the address is that of an A record with a reason `host`, and the host is what is read
      back of `host`; the proxy address and port are the configured ones. */
  lemma {:induction false} EveryLogLineTrue(cfg: Config, evs: seq<Event>, i: nat)
    requires cfg.Valid() && i < |Run(cfg, evs).log|
    ensures var s := Run(cfg, evs);
            && i < |s.events| && s.events[i] < |s.rewrites|
            && var line, w := s.log[i], s.rewrites[s.events[i]];
            && line.pid == w.caller.pidTgid % 0x1_0000_0000 && line.process == NullTerm(w.caller.command)
            && line.originalIp == Put(cfg.e, w.ip, 4) && line.originalPort == Ntohs(cfg.e, w.port % 0x1_0000)
            && (exists host :: Reason(cfg, s, w.seen, w.framesSeen, line.originalIp, host)
                               && line.originalHost == NullTerm(DS.StoredName(host)))
            && Some(line.proxyIp) == cfg.proxyIp && line.proxyPort == cfg.proxyPort
  {
    InvRun(cfg, evs);
    LogAgreesWithRewrites(cfg, evs);
    var s := Run(cfg, evs);
    var w := s.rewrites[s.events[i]];
    assert RewriteOk(cfg, s.frames, s.messages, w);
    JustifiedHasReason(cfg, s, w.seen, w.framesSeen, w.ip, w.ev.hostname);
    AddressRoundTrip(cfg.e, cfg.proxyIp.value);
    NtohsInvolution(cfg.e, cfg.proxyPort);
  }

  /** Some processed message gives a reason for treating `octets` as an AI destination. */
  ghost predicate HasReason(cfg: Config, s: Sys, octets: seq<byte>) {
    exists host :: Reason(cfg, s, |s.messages|, |s.frames|, octets, host)
  }

  lemma AllCaptured(cfg: Config, s: Sys)
    requires DnsInv(cfg, s)
    ensures CapturedBy(s.frames, s.messages, |s.messages|, |s.frames|)
  {
    assert s.frames[..|s.frames|] == s.frames;
  }

  lemma MappedHasReason(cfg: Config, s: Sys, ip: uint32)
    requires cfg.Valid() && Inv(cfg, s) && ip in s.k.dest
    ensures HasReason(cfg, s, Put(cfg.e, ip, 4))
  {
    AllCaptured(cfg, s);
    JustifiedHasReason(cfg, s, |s.messages|, |s.frames|, ip, s.k.dest[ip]);
  }

  /** Traffic that is not AI traffic is left alone: in every state of every run, an address for which no processed
      message gives a reason is not redirected. */
  lemma {:induction false} OtherTrafficUntouched(cfg: Config, evs: seq<Event>, ip: uint32, port: uint32)
    requires cfg.Valid() && !HasReason(cfg, Run(cfg, evs), Put(cfg.e, ip, 4))
    ensures Rerouted(Run(cfg, evs).k, ip, port) == (ip, port)
  {
    InvRun(cfg, evs);
    if ip in Run(cfg, evs).k.dest {
      MappedHasReason(cfg, Run(cfg, evs), ip);
    }
  }

  /** The event does not evict `key`. */
  predicate Spares(ev: Event, key: uint32) {
    match ev
    case ReadDns(env) => forall i :: 0 <= i < |env| ==> DS.SparesKey(env[i], key)
    case Evict(keys) => key !in keys
    case _ => true
  }

  /** Among the updates for `msg`, one for `key` is stored and no later one evicts it. */
  ghost predicate Stores(cfg: Config, msg: seq<byte>, env: seq<DS.UpdateOutcome>, key: uint32) {
    && cfg.unpack(msg).Some?
    && var ds := Resolved(cfg.domains, cfg.unpack(msg).value);
       DS.AllIPv4(ds) && exists i: nat :: DS.StoresAt(cfg.e, ds, env, i) && Get32(cfg.e, ds[i].ip) == key
  }

  /** Reading the message puts the address into the map. */
  lemma ReadMaps(cfg: Config, s: Sys, msg: seq<byte>, env: seq<DS.UpdateOutcome>, key: uint32)
    requires s.k.dns.queue != [] && ReadSample(cfg.e, s.k.dns.queue[0]) == Message(msg) && Stores(cfg, msg, env, key)
    ensures key in OnReadDns(cfg, s, env).k.dest
  {
    var ds := Resolved(cfg.domains, cfg.unpack(msg).value);
    var i: nat :| DS.StoresAt(cfg.e, ds, env, i) && Get32(cfg.e, ds[i].ip) == key;
    DS.StoredIsMapped(cfg.e, s.k.dest, ds, env, i);
  }

  lemma ProcessingSpares(cfg: Config, dest: DS.Entries, msg: seq<byte>, env: seq<DS.UpdateOutcome>, key: uint32)
    requires key in dest && Spares(ReadDns(env), key)
    ensures key in DS.Processed(cfg.e, cfg.domains, cfg.unpack, dest, msg, env)
  {
    if cfg.unpack(msg).Some? {
      var ans := cfg.unpack(msg).value;
      DS.DestinationsAreIPv4(cfg.domains, Aliases(cfg.domains, ans, |ans|), ans, |ans|);
      DS.SparedStays(cfg.e, dest, Resolved(cfg.domains, ans), env, key);
    }
  }

  lemma SparedNext(cfg: Config, s: Sys, ev: Event, key: uint32)
    requires cfg.Valid() && key in s.k.dest && Spares(ev, key)
    ensures key in Next(cfg, s, ev).k.dest
  {
    if ev.ReadDns? && s.k.dns.queue != [] {
      var sample := ReadSample(cfg.e, s.k.dns.queue[0]);
      if sample.Message? {
        ProcessingSpares(cfg, s.k.dest, sample.bytes, ev.env, key);
      }
    }
  }

  /** An address in the map stays there through any events that do not evict it. */
  lemma {:induction false} SparedRun(cfg: Config, evs: seq<Event>, more: seq<Event>, key: uint32)
    requires cfg.Valid() && key in Run(cfg, evs).k.dest && forall n :: 0 <= n < |more| ==> Spares(more[n], key)
    ensures key in Run(cfg, evs + more).k.dest
    decreases |more|
  {
    if more == [] {
      assert evs + more == evs;
    } else {
      var n := |more| - 1;
      SparedRun(cfg, evs, more[..n], key);
      RunSplit(cfg, evs, more);
      SparedNext(cfg, Run(cfg, evs + more[..n]), more[n], key);
    }
  }

  lemma {:induction false} RunSplit(cfg: Config, evs: seq<Event>, more: seq<Event>)
    requires cfg.Valid() && more != []
    ensures var n := |more| - 1;
            Run(cfg, evs + more) == Next(cfg, Run(cfg, evs + more[..n]), more[n])
  {
    var all := evs + more;
    assert all[..|all| - 1] == evs + more[..|more| - 1];
  }

  /** The number of reads of the DNS ring among the events. */
  function Reads(evs: seq<Event>): (n: nat)
    ensures n <= |evs|
  {
    if evs == [] then 0 else Reads(evs[..|evs| - 1]) + if evs[|evs| - 1].ReadDns? then 1 else 0
  }

  lemma QueueNext(cfg: Config, s: Sys, ev: Event, waiting: seq<seq<byte>>)
    requires cfg.Valid() && waiting <= s.k.dns.queue && (ev.ReadDns? ==> waiting != [])
    ensures (if ev.ReadDns? then waiting[1..] else waiting) <= Next(cfg, s, ev).k.dns.queue
  {
  }

  /** The DNS ring is read in order: after as many reads as there are older records, a record is the next to be read,
      whatever else happens. */
  lemma {:induction false} QueueAdvances(cfg: Config, evs: seq<Event>, more: seq<Event>)
    requires cfg.Valid() && Reads(more) <= |Run(cfg, evs).k.dns.queue|
    ensures Run(cfg, evs).k.dns.queue[Reads(more)..] <= Run(cfg, evs + more).k.dns.queue
    decreases |more|
  {
    if more == [] {
      assert evs + more == evs;
    } else {
      var n := |more| - 1;
      var queue := Run(cfg, evs).k.dns.queue;
      QueueAdvances(cfg, evs, more[..n]);
      RunSplit(cfg, evs, more);
      QueueNext(cfg, Run(cfg, evs + more[..n]), more[n], queue[Reads(more[..n])..]);
    }
  }

  /** If there are more than `n` reads, one of them has exactly `n` before it. */
  lemma {:induction false} ReadComes(more: seq<Event>, n: nat) returns (r: nat)
    requires Reads(more) > n
    ensures r < |more| && more[r].ReadDns? && Reads(more[..r]) == n
    decreases |more|
  {
    var last := |more| - 1;
    if Reads(more[..last]) == n {
      r := last;
    } else {
      r := ReadComes(more[..last], n);
      assert more[..last][..r] == more[..r];
    }
  }

  /** A connection to an address in the map is rewritten to the proxy, whether or not the ring has room for the event.
      */
  lemma MappedIsRewritten(cfg: Config, evs: seq<Event>, connect: Event)
    requires cfg.Valid() && connect.Connect?
    requires Connect4 in Run(cfg, evs).k.attached && connect.ip in Run(cfg, evs).k.dest
    ensures RewritesTo(cfg, Run(cfg, evs), Run(cfg, evs + [connect]), connect)
  {
    InvRun(cfg, evs);
    RunOneMore(cfg, evs, connect);
  }

  /** The connect adds exactly one rewrite, of its own call, to the configured proxy. */
  predicate RewritesTo(cfg: Config, s: Sys, s': Sys, connect: Event)
    requires cfg.Valid() && connect.Connect?
  {
    && |s'.rewrites| == |s.rewrites| + 1 && s'.rewrites[..|s.rewrites|] == s.rewrites
    && var w := s'.rewrites[|s.rewrites|];
       && w.ip == connect.ip && w.port == connect.port && w.caller == connect.caller && cfg.proxyIp.Some?
       && w.to == (ConfiguredSlot(cfg).ip, ConfiguredSlot(cfg).port)
  }

  /** The converse of provenance: when the message next in the ring is read and its update for an address is stored,
      then after any further events that do not evict the address, a connection to it is rewritten to the proxy. */
  lemma {:induction false} ResolvedIsIntercepted(cfg: Config, evs: seq<Event>, msg: seq<byte>,
                                                 env: seq<DS.UpdateOutcome>,
                                                 more: seq<Event>, before: seq<Event>, connect: Event)
    requires cfg.Valid() && before == evs + [ReadDns(env)] + more && Run(cfg, evs).k.dns.queue != []
    requires ReadSample(cfg.e, Run(cfg, evs).k.dns.queue[0]) == Message(msg)
    requires connect.Connect? && Stores(cfg, msg, env, connect.ip)
    requires forall n :: 0 <= n < |more| ==> Spares(more[n], connect.ip)
    requires Connect4 in Run(cfg, before).k.attached
    ensures RewritesTo(cfg, Run(cfg, before), Run(cfg, before + [connect]), connect)
  {
    RunOneMore(cfg, evs, ReadDns(env));
    ReadMaps(cfg, Run(cfg, evs), msg, env, connect.ip);
    SparedRun(cfg, evs + [ReadDns(env)], more, connect.ip);
    MappedIsRewritten(cfg, before, connect);
  }

  /** A frame reaches the agent exactly as it is captured: with room in the ring, the queue grows by one record, which
      is read as the captured message, if the frame is captured, and stays as it is otherwise. */
  lemma {:induction false} FrameQueued(cfg: Config, s: Sys, f: Frame, stale: Stale)
    requires Tc in s.k.attached
    ensures var queue, queue' := s.k.dns.queue, OnFrame(cfg, s, f, true, stale).k.dns.queue;
            match Captured(f)
            case None => queue' == queue
            case Some(msg) => |queue'| == |queue| + 1 && queue'[..|queue|] == queue
                              && ReadSample(cfg.e, queue'[|queue|]) == Message(msg)
    ensures OnFrame(cfg, s, f, false, stale).k == s.k
    ensures var r, r' := s.k.dns, OnFrame(cfg, s, f, true, stale).k.dns;
            && r'.reserved == r.reserved + (if SizeAccepted(f) then 1 else 0)
            && r'.submitted == r.submitted + (if Captured(f).Some? then 1 else 0)
  {
    if Captured(f).Some? {
      SampleRoundTrip(cfg.e, Captured(f).value, stale);
    }
  }

  /** The message announces `octets` as an AI address: it has an A record of that address whose name is an AI name or
      the end of a latest in-order chain from a non-empty AI name. */
  ghost predicate Announces(cfg: Config, dns: seq<byte>, octets: seq<byte>) {
    cfg.unpack(dns).Some? && exists a: nat :: WritesAddress(cfg.domains, cfg.unpack(dns).value, a, octets)
  }

  /** With its CNAME records in order and no empty domain configured, a message announces the address of every A
      record whose name is an AI name or is reached from one in the CNAME graph. */
  lemma OrderedAnnounces(cfg: Config, dns: seq<byte>, octets: seq<byte>)
    requires cfg.unpack(dns).Some? && Ordered(cfg.unpack(dns).value) && [] !in cfg.domains
    requires AddressReached(cfg.domains, cfg.unpack(dns).value, octets)
    ensures Announces(cfg, dns, octets)
  {
    OnePassRefinesClosure(cfg.domains, cfg.unpack(dns).value, octets);
    WrittenAddressIff(cfg.domains, cfg.unpack(dns).value, octets);
  }

  /** If no update for the announced address is refused and none evicts it, the update is stored. */
  lemma AnnouncedIsStored(cfg: Config, dns: seq<byte>, key: uint32, env: seq<DS.UpdateOutcome>)
    requires Announces(cfg, dns, Put(cfg.e, key, 4)) && Accepts(cfg, dns, Put(cfg.e, key, 4), env)
    requires Spares(ReadDns(env), key)
    ensures Stores(cfg, dns, env, key)
  {
    var ans, octets := cfg.unpack(dns).value, Put(cfg.e, key, 4);
    var ds := Resolved(cfg.domains, ans);
    WrittenAddressIff(cfg.domains, ans, octets);
    var d :| d in ds && d.ip == octets;
    var i :| 0 <= i < |ds| && ds[i] == d;
    GetPut32(cfg.e, key);
    DS.DestinationsAreIPv4(cfg.domains, Aliases(cfg.domains, ans, |ans|), ans, |ans|);
    assert DS.StoresAt(cfg.e, ds, env, i);
  }

  /** No update that the message makes for the address is refused. */
  predicate Accepts(cfg: Config, dns: seq<byte>, octets: seq<byte>, env: seq<DS.UpdateOutcome>)
    requires cfg.unpack(dns).Some?
  {
    var ds := Resolved(cfg.domains, cfg.unpack(dns).value);
    forall i :: 0 <= i < |ds| && ds[i].ip == octets ==> DS.Outcome(env, i).Stored?
  }

  /** The record of a captured frame is the next to be read after as many reads as there were older records. */
  lemma FrameComesToBeRead(cfg: Config, evs: seq<Event>, f: Frame, stale: Stale, dns: seq<byte>, more: seq<Event>)
    requires cfg.Valid() && Tc in Run(cfg, evs).k.attached && Captured(f) == Some(dns)
    requires Reads(more) == |Run(cfg, evs).k.dns.queue|
    ensures var s := Run(cfg, evs + [FrameIn(f, true, stale)] + more);
            s.k.dns.queue != [] && ReadSample(cfg.e, s.k.dns.queue[0]) == Message(dns)
  {
    var after := evs + [FrameIn(f, true, stale)];
    FrameQueued(cfg, Run(cfg, evs), f, stale);
    RunOneMore(cfg, evs, FrameIn(f, true, stale));
    QueueAdvances(cfg, after, more);
    assert Run(cfg, after).k.dns.queue[Reads(more)..][0] == Run(cfg, after + more).k.dns.queue[0];
  }

  lemma {:induction false} SplitAtRead(start: seq<Event>, more: seq<Event>, r: nat, key: uint32)
    returns (rest: seq<Event>)
    requires r < |more| && more[r].ReadDns? && forall n :: r < n < |more| ==> Spares(more[n], key)
    ensures start + more == start + more[..r] + [ReadDns(more[r].env)] + rest
    ensures forall n :: 0 <= n < |rest| ==> Spares(rest[n], key)
  {
    rest := more[r + 1..];
    assert more == more[..r] + [more[r]] + rest;
  }

  /** The data flow end to end. In any state with the TC hook attached and any backlog in the ring, a DNS answer is
      captured; then any events follow, among them, at `r`, the read that reaches the answer, whose update for an
      address is stored; after that read nothing evicts the address. Then, if the connect hook is attached, a
      connection to the address is sent to the proxy. ReadComes gives `r` whenever there are more reads than older
      records, and AnnouncedIsStored the stored update. */
  lemma {:induction false} AnswerIsIntercepted(cfg: Config, evs: seq<Event>, f: Frame, stale: Stale, dns: seq<byte>,
                                               more: seq<Event>, r: nat, before: seq<Event>, connect: Event)
    requires cfg.Valid() && Tc in Run(cfg, evs).k.attached && Captured(f) == Some(dns) && connect.Connect?
    requires before == evs + [FrameIn(f, true, stale)] + more
    requires r < |more| && more[r].ReadDns? && Reads(more[..r]) == |Run(cfg, evs).k.dns.queue|
    requires Stores(cfg, dns, more[r].env, connect.ip)
    requires forall n :: r < n < |more| ==> Spares(more[n], connect.ip)
    requires Connect4 in Run(cfg, before).k.attached
    ensures RewritesTo(cfg, Run(cfg, before), Run(cfg, before + [connect]), connect)
  {
    var head, env := evs + [FrameIn(f, true, stale)] + more[..r], more[r].env;
    var rest := SplitAtRead(evs + [FrameIn(f, true, stale)], more, r, connect.ip);
    FrameComesToBeRead(cfg, evs, f, stale, dns, more[..r]);
    ResolvedIsIntercepted(cfg, head, dns, env, rest, before, connect);
  }

  /** In particular, for an answer that announces the address: however many older records wait, as soon as there have
      been more reads than that, with no event evicting the address and no read refusing an update for it, a
      connection to the address is sent to the proxy. */
  lemma {:induction false} EnoughReadsIntercept(cfg: Config, evs: seq<Event>, f: Frame, stale: Stale, dns: seq<byte>,
                                                more: seq<Event>, before: seq<Event>, connect: Event)
    requires cfg.Valid() && Tc in Run(cfg, evs).k.attached && connect.Connect?
    requires Captured(f) == Some(dns) && Announces(cfg, dns, Put(cfg.e, connect.ip, 4))
    requires before == evs + [FrameIn(f, true, stale)] + more && Reads(more) > |Run(cfg, evs).k.dns.queue|
    requires forall n :: 0 <= n < |more| ==> Spares(more[n], connect.ip)
    requires forall n :: 0 <= n < |more| && more[n].ReadDns? ==>
               Accepts(cfg, dns, Put(cfg.e, connect.ip, 4), more[n].env)
    requires Connect4 in Run(cfg, before).k.attached
    ensures RewritesTo(cfg, Run(cfg, before), Run(cfg, before + [connect]), connect)
  {
    var r := ReadComes(more, |Run(cfg, evs).k.dns.queue|);
    assert Spares(more[r], connect.ip);
    AnnouncedIsStored(cfg, dns, connect.ip, more[r].env);
    AnswerIsIntercepted(cfg, evs, f, stale, dns, more, r, before, connect);
  }

  lemma {:induction false} RunOneMore(cfg: Config, evs: seq<Event>, ev: Event)
    requires cfg.Valid()
    ensures Run(cfg, evs + [ev]) == Next(cfg, Run(cfg, evs), ev)
  {
    assert (evs + [ev])[..|evs|] == evs;
  }
}
