/** The userspace agent: start-up and clean-up (NewManager) and the two ring readers. */
module Agent {
  import opened Bytes
  import opened Kernel
  import opened RingRecords
  import DS = DnsService
  import DM = DomainMatch

  /** The configuration; `proxyIp` is the parsed PROXY_IP, if it is an IPv4 address. */
  datatype Config = Config(e: Endian, domains: seq<DM.Name>, unpack: DS.Unpacker, proxyIp: Option<seq<byte>>,
                           proxyPort: uint16) {
    predicate Valid() { proxyIp.Some? ==> |proxyIp.value| == 4 }
  }

  /** The value that start-up writes into the proxy slot. */
  function ConfiguredSlot(cfg: Config): ProxySlot
    requires cfg.Valid() && cfg.proxyIp.Some?
  {
    ProxySlot(Get32(cfg.e, cfg.proxyIp.value), Ntohs(cfg.e, cfg.proxyPort))
  }

  /** The slot holds the address and the port in network order: in memory they are the four octets, and the two bytes
      of the port with the more significant one first. */
  lemma SlotInNetworkOrder(cfg: Config)
    requires cfg.Valid() && cfg.proxyIp.Some?
    ensures Put(cfg.e, ConfiguredSlot(cfg).ip, 4) == cfg.proxyIp.value
    ensures Put(cfg.e, ConfiguredSlot(cfg).port, 2) == [cfg.proxyPort / 256, cfg.proxyPort % 256]
  {
    AddressRoundTrip(cfg.e, cfg.proxyIp.value);
    NtohsBytes(cfg.e, cfg.proxyPort);
    Put2(cfg.e, Ntohs(cfg.e, cfg.proxyPort));
  }

  // ---------- Start-up as steps ----------

  datatype Phase = Loaded | Configured | TcOn | Running | Failed | Closed

  datatype Boot = Boot(phase: Phase, links: seq<Hook>)

  const BOOT := Boot(Loaded, [])

  /** The hooks left after closing `links`, when only the closes in `closes` succeed; their errors are ignored. */
  function Detached(attached: set<Hook>, links: seq<Hook>, closes: set<Hook>): set<Hook> {
    attached - set h | h in links && h in closes
  }

  /** One effect of start-up (or, once running, the shutdown), which succeeds or fails as `ok` says. */
  function BootStep(cfg: Config, s: State, b: Boot, ok: bool, closes: set<Hook>): (State, Boot)
    requires cfg.Valid()
  {
    match b.phase
    case Loaded =>
      if ok && cfg.proxyIp.Some? then (s.(proxy := ConfiguredSlot(cfg)), b.(phase := Configured))
      else (s, b.(phase := Failed))
    case Configured =>
      if ok then (s.(attached := s.attached + {Tc}), Boot(TcOn, b.links + [Tc])) else (s, b.(phase := Failed))
    case TcOn =>
      if ok then (s.(attached := s.attached + {Connect4}), Boot(Running, b.links + [Connect4]))
      else (s.(attached := Detached(s.attached, b.links, closes)), Boot(Failed, []))
    case Running => (s.(attached := Detached(s.attached, b.links, closes)), Boot(Closed, []))
    case Failed => (s, b)
    case Closed => (s, b)
  }

  /** What the foreign calls of start-up answer. */
  datatype BootEnv = BootEnv(updateOk: bool, ifaceOk: bool, qdisc: QdiscAnswer, filterOk: bool, cgroupOk: bool,
                             closes: set<Hook>)
  datatype QdiscAnswer = Added | Exists | Refused

  /** The three start-up steps in order. */
  function Booted(cfg: Config, env: BootEnv): (State, Boot)
    requires cfg.Valid()
  {
    var (s1, b1) := BootStep(cfg, LOADED, BOOT, env.updateOk, env.closes);
    if b1.phase == Failed then (s1, b1)
    else
      var (s2, b2) := BootStep(cfg, s1, b1, env.ifaceOk && !env.qdisc.Refused? && env.filterOk, env.closes);
      if b2.phase == Failed then (s2, b2)
      else BootStep(cfg, s2, b2, env.cgroupOk, env.closes)
  }

  /** Start-up ends with both hooks attached and the proxy slot written, exactly when every call succeeds and the
      proxy address is IPv4; or it fails, and then no hook is attached, except the TC hook if that was attached and
      cannot be detached. */
  lemma {:induction false} BootedOutcome(cfg: Config, env: BootEnv)
    requires cfg.Valid()
    ensures var (k, boot) := Booted(cfg, env);
            if cfg.proxyIp.Some? && env.updateOk && env.ifaceOk && !env.qdisc.Refused? && env.filterOk
               && env.cgroupOk then
              boot.phase == Running && k == LOADED.(proxy := ConfiguredSlot(cfg), attached := {Tc, Connect4})
            else
              var slot := if cfg.proxyIp.Some? && env.updateOk then ConfiguredSlot(cfg) else ProxySlot(0, 0);
              var tcOn := cfg.proxyIp.Some? && env.updateOk && env.ifaceOk && !env.qdisc.Refused? && env.filterOk;
              && boot.phase == Failed
              && k == LOADED.(proxy := slot, attached := if tcOn && Tc !in env.closes then {Tc} else {})
  {
    assert Detached({Tc}, [Tc], env.closes) == if Tc in env.closes then {} else {Tc};
  }

  // ---------- Reading the rings as steps ----------

  function AfterReadDns(cfg: Config, s: State, env: seq<DS.UpdateOutcome>): State
    requires s.dns.queue != []
  {
    var s1 := s.(dns := s.dns.(queue := s.dns.queue[1..]));
    match ReadSample(cfg.e, s.dns.queue[0])
    case Message(msg) => s1.(dest := DS.Processed(cfg.e, cfg.domains, cfg.unpack, s.dest, msg, env))
    case Skip => s1
    case OutOfRange => s1
  }

  function Logged(e: Endian, raw: seq<byte>): seq<LogLine> {
    match ReadRedirect(e, raw)
    case None => []
    case Some(line) => [line]
  }

  function AfterReadRedirect(s: State): State
    requires s.redirects.queue != []
  {
    s.(redirects := s.redirects.(queue := s.redirects.queue[1..]))
  }

  // ---------- The code ----------

  class Manager {
    const cfg: Config
    const objs: Objects
    const svc: DS.Service
    var links: seq<Hook>
    var log: seq<LogLine>

    ghost predicate Valid()
      reads this, objs, objs.dnsEvents, objs.redirectEvents
    {
      && cfg.Valid() && objs.Valid() && cfg.e == objs.e
      && svc.e == cfg.e && svc.domains == cfg.domains && svc.unpack == cfg.unpack && svc.dest == objs.dest
    }

    constructor (cfg: Config, objs: Objects, svc: DS.Service)
      ensures this.cfg == cfg && this.objs == objs && this.svc == svc && links == [] && log == []
    {
      this.cfg, this.objs, this.svc, links, log := cfg, objs, svc, [], [];
    }

    method WriteProxyConfig(updateOk: bool) returns (err: bool)
      requires Valid()
      modifies objs
      ensures Valid() && err == !(updateOk && cfg.proxyIp.Some?)
      ensures objs.View() == if err then old(objs.View()) else old(objs.View()).(proxy := ConfiguredSlot(cfg))
    {
      if cfg.proxyIp.None? {
        return true;
      }
      var slot := ProxySlot(Get32(cfg.e, cfg.proxyIp.value), Ntohs(cfg.e, cfg.proxyPort));
      if updateOk {
        objs.proxy := slot;
      }
      return !updateOk;
    }

    method AttachTC(qdisc: QdiscAnswer, filterOk: bool) returns (err: bool)
      requires Valid()
      modifies this`links, objs`attached
      ensures Valid() && err == !(!qdisc.Refused? && filterOk)
      ensures if err then links == old(links) && objs.View() == old(objs.View())
              else links == old(links) + [Tc] && objs.View() == old(objs.View()).(attached := old(objs.attached) + {Tc})
    {
      if qdisc.Refused? {
        return true;
      }
      if !filterOk {
        return true;
      }
      objs.attached := objs.attached + {Tc};
      links := links + [Tc];
      return false;
    }

    method AttachCgroup(cgroupOk: bool) returns (err: bool)
      requires Valid()
      modifies this`links, objs`attached
      ensures Valid() && err == !cgroupOk
      ensures if err then links == old(links) && objs.View() == old(objs.View())
              else links == old(links) + [Connect4]
                   && objs.View() == old(objs.View()).(attached := old(objs.attached) + {Connect4})
    {
      if !cgroupOk {
        return true;
      }
      objs.attached := objs.attached + {Connect4};
      links := links + [Connect4];
      return false;
    }

    method CloseLinks(closes: set<Hook>)
      requires Valid()
      modifies this`links, objs`attached
      ensures Valid() && links == []
      ensures objs.View() == old(objs.View()).(attached := Detached(old(objs.attached), old(links), closes))
    {
      for i := 0 to |links|
        invariant Valid() && links == old(links)
        invariant objs.View() == old(objs.View()).(attached := Detached(old(objs.attached), links[..i], closes))
      {
        assert links[..i + 1] == links[..i] + [links[i]];
        if links[i] in closes {
          objs.attached := objs.attached - {links[i]};
        }
        assert objs.attached == Detached(old(objs.attached), links[..i + 1], closes);
      }
      assert links[..|links|] == links;
      links := [];
    }

    /** Close: only the links decide what stays attached. */
    method Close(closes: set<Hook>)
      requires Valid()
      modifies this`links, objs`attached
      ensures Valid()
      ensures (objs.View(), Boot(Closed, links)) ==
                BootStep(cfg, old(objs.View()), Boot(Running, old(links)), true, closes)
    {
      CloseLinks(closes);
    }

    /** One turn of the dns_events reader; `fault` is a slice out of range. */
    method ReadDNSEvent(env: seq<DS.UpdateOutcome>) returns (fault: bool)
      requires Valid() && objs.dnsEvents.queue != []
      modifies objs.dnsEvents, objs.dest
      ensures Valid() && objs.View() == AfterReadDns(cfg, old(objs.View()), env)
      ensures fault <==> ReadSample(cfg.e, old(objs.dnsEvents.queue[0])).OutOfRange?
    {
      var raw := objs.dnsEvents.Consume();
      match ReadSample(cfg.e, raw)
      case Skip =>
        fault := false;
      case OutOfRange =>
        fault := true;
      case Message(msg) =>
        fault := false;
        var _ := svc.ProcessDNSEvent(msg, env);
    }

    /** One turn of the redirect_events reader. */
    method ReadRedirectEvent()
      requires Valid() && objs.redirectEvents.queue != []
      modifies this`log, objs.redirectEvents
      ensures Valid() && objs.View() == AfterReadRedirect(old(objs.View()))
      ensures log == old(log) + Logged(cfg.e, old(objs.redirectEvents.queue[0]))
    {
      var raw := objs.redirectEvents.Consume();
      var line := ReadRedirect(cfg.e, raw);
      if line.Some? {
        log := log + [line.value];
      }
    }
  }

  /** Start-up after the objects are loaded: write the proxy slot, attach the TC hook, attach the connect hook, and
      undo on failure. */
  method NewManager(cfg: Config, env: BootEnv) returns (objs: Objects, m: Manager?)
    requires cfg.Valid()
    ensures fresh(objs)
    ensures objs.View() == Booted(cfg, env).0
    ensures m != null <==> Booted(cfg, env).1.phase == Running
    ensures m != null ==> m.Valid() && m.objs == objs && m.cfg == cfg && m.links == Booted(cfg, env).1.links
  {
    objs := new Objects(cfg.e);
    var svc := new DS.Service(cfg.e, cfg.domains, cfg.unpack, objs.dest);
    var mgr := new Manager(cfg, objs, svc);
    var err := mgr.WriteProxyConfig(env.updateOk);
    if err {
      return objs, null;
    }
    if !env.ifaceOk {
      return objs, null;
    }
    err := mgr.AttachTC(env.qdisc, env.filterOk);
    if err {
      return objs, null;
    }
    err := mgr.AttachCgroup(env.cgroupOk);
    if err {
      mgr.CloseLinks(env.closes);
      return objs, null;
    }
    return objs, mgr;
  }
}
