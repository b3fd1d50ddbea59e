/** The kernel side: ring buffers, maps and the two hooks, as steps on a state and as the code that performs them. */
module Kernel {
  import opened Bytes
  import opened FrameCapture
  import opened RingRecords
  import DS = DnsService

  // ---------- State ----------

  /** A ring between hook runs: the records not yet read, and how many were reserved, submitted and discarded so far. */
  datatype RingState = RingState(queue: seq<seq<byte>>, reserved: nat, submitted: nat, discarded: nat) {
    /** Each reservation was submitted or discarded exactly once. */
    predicate Settled() { reserved == submitted + discarded }
  }

  /** The value of the proxy_config map, in network byte order as the machine reads it. */
  datatype ProxySlot = ProxySlot(ip: uint32, port: uint16)

  datatype Hook = Tc | Connect4

  datatype State = State(dns: RingState, redirects: RingState, dest: DS.Entries, proxy: ProxySlot, attached: set<Hook>)

  const EMPTY_RING := RingState([], 0, 0, 0)

  /** Freshly loaded objects: empty maps, a zero proxy slot, nothing attached. */
  const LOADED := State(EMPTY_RING, EMPTY_RING, map[], ProxySlot(0, 0), {})

  // ---------- The effect of a frame ----------

  /** The dns_events ring after a frame: a reservation for each payload of accepted size when the ring has room, which
      is submitted for a response and discarded otherwise. */
  function AfterFrame(e: Endian, r: RingState, f: Frame, room: bool, stale: Stale): (r': RingState)
    ensures r.Settled() ==> r'.Settled()
  {
    if !room || !SizeAccepted(f) then r
    else match Captured(f)
      case Some(msg) =>
        RingState(r.queue + [DnsEvent(e, msg, stale)], r.reserved + 1, r.submitted + 1, r.discarded)
      case None => r.(reserved := r.reserved + 1, discarded := r.discarded + 1)
  }

  // ---------- The effect of a connect ----------

  /** What the hook sees of the calling process. */
  datatype Caller = Caller(pidTgid: uint64, now: uint64, command: Command)

  /** The event of a redirected connection. */
  function EventOf(s: State, ip: uint32, port: uint32, c: Caller): Redirect
    requires ip in s.dest
  {
    Redirect(c.pidTgid % 0x1_0000_0000, c.pidTgid / 0x1_0000_0000, ip, port % 0x1_0000, s.proxy.ip, s.proxy.port,
             s.dest[ip], c.command, c.now)
  }

  /** The destination a connection really gets; the ring plays no part in it. */
  function Rerouted(s: State, ip: uint32, port: uint32): (uint32, uint32) {
    if ip in s.dest then (s.proxy.ip, s.proxy.port) else (ip, port)
  }

  function AfterConnect(e: Endian, s: State, ip: uint32, port: uint32, c: Caller, room: bool,
                        stale: StaleEvent): (s': State)
    ensures s.redirects.Settled() ==> s'.redirects.Settled()
  {
    if ip !in s.dest || !room then s
    else
      var r := s.redirects;
      var raw := RedirectEvent(e, EventOf(s, ip, port, c), stale);
      s.(redirects := RingState(r.queue + [raw], r.reserved + 1, r.submitted + 1, r.discarded))
  }

  // ---------- The code ----------

  class Ring {
    var queue: seq<seq<byte>>
    var open: map<nat, seq<byte>>
    var reserved: nat
    var submitted: nat
    var discarded: nat

    /** Reservations are numbered; each is open, submitted or discarded, and never two of them. */
    ghost predicate Valid()
      reads this
    {
      (forall id :: id in open ==> id < reserved) && reserved == |open| + submitted + discarded
    }

    ghost predicate Idle()
      reads this
    {
      Valid() && open == map[]
    }

    ghost function View(): RingState
      reads this
    {
      RingState(queue, reserved, submitted, discarded)
    }

    constructor ()
      ensures Idle() && View() == EMPTY_RING
    {
      queue, open, reserved, submitted, discarded := [], map[], 0, 0, 0;
    }

    method Reserve(room: bool) returns (id: Option<nat>)
      requires Valid()
      modifies this
      ensures Valid() && queue == old(queue) && submitted == old(submitted) && discarded == old(discarded)
      ensures id.Some? <==> room
      ensures room ==> id.value == old(reserved) && reserved == old(reserved) + 1 && open == old(open)[id.value := []]
      ensures !room ==> reserved == old(reserved) && open == old(open)
    {
      if !room {
        return None;
      }
      id := Some(reserved);
      assert reserved !in open;
      open := open[reserved := []];
      reserved := reserved + 1;
    }

    method Fill(id: nat, raw: seq<byte>)
      requires Valid() && id in open
      modifies this`open
      ensures Valid() && open == old(open)[id := raw]
    {
      assert (open[id := raw]).Keys == open.Keys;
      open := open[id := raw];
    }

    method Submit(id: nat)
      requires Valid() && id in open
      modifies this
      ensures Valid() && queue == old(queue) + [old(open)[id]] && open == old(open) - {id}
      ensures reserved == old(reserved) && submitted == old(submitted) + 1 && discarded == old(discarded)
    {
      queue := queue + [open[id]];
      assert (open - {id}).Keys == open.Keys - {id};
      open := open - {id};
      submitted := submitted + 1;
    }

    method Discard(id: nat)
      requires Valid() && id in open
      modifies this
      ensures Valid() && queue == old(queue) && open == old(open) - {id}
      ensures reserved == old(reserved) && submitted == old(submitted) && discarded == old(discarded) + 1
    {
      assert (open - {id}).Keys == open.Keys - {id};
      open := open - {id};
      discarded := discarded + 1;
    }

    /** Fills the reservation `id`, then submits it or, unless `keep`, discards it. */
    method Finish(id: nat, raw: seq<byte>, keep: bool)
      requires Valid() && open.Keys == {id}
      modifies this
      ensures Idle() && reserved == old(reserved)
      ensures queue == if keep then old(queue) + [raw] else old(queue)
      ensures submitted == old(submitted) + (if keep then 1 else 0)
      ensures discarded == old(discarded) + (if keep then 0 else 1)
    {
      Fill(id, raw);
      if keep {
        Submit(id);
      } else {
        Discard(id);
      }
    }

    method Consume() returns (raw: seq<byte>)
      requires Valid() && queue != []
      modifies this`queue
      ensures raw == old(queue)[0] && queue == old(queue)[1..]
    {
      raw := queue[0];
      queue := queue[1..];
    }
  }

  /** The socket address a connect hook may overwrite. */
  class SockAddr {
    var userIp4: uint32
    var userPort: uint32

    constructor (ip: uint32, port: uint32)
      ensures userIp4 == ip && userPort == port
    {
      userIp4, userPort := ip, port;
    }
  }

  class Objects {
    const e: Endian
    const dnsEvents: Ring
    const redirectEvents: Ring
    const dest: DS.DestMap
    var proxy: ProxySlot
    var attached: set<Hook>

    ghost predicate Valid()
      reads this, dnsEvents, redirectEvents
    {
      dnsEvents != redirectEvents && dnsEvents.Idle() && redirectEvents.Idle()
    }

    ghost function View(): State
      reads this, dnsEvents, redirectEvents, dest
    {
      State(dnsEvents.View(), redirectEvents.View(), dest.entries, proxy, attached)
    }

    constructor (e: Endian)
      ensures this.e == e && Valid() && View() == LOADED
      ensures fresh(dnsEvents) && fresh(redirectEvents) && fresh(dest)
    {
      this.e := e;
      dnsEvents := new Ring();
      redirectEvents := new Ring();
      dest := new DS.DestMap();
      proxy, attached := ProxySlot(0, 0), {};
    }

    /** The TC hook: copies a DNS response into the ring. The copy of the payload never fails, so a reservation is
        discarded only for a payload that is no response. */
    method TcDnsObserver(f: Frame, room: bool, stale: Stale)
      requires Valid()
      modifies dnsEvents
      ensures Valid() && View() == old(View()).(dns := AfterFrame(e, old(dnsEvents.View()), f, room, stale))
    {
      var w := LocatePayload(f);
      if w.Reject? {
        return;
      }
      var ev := dnsEvents.Reserve(room);
      if ev.None? {
        return;
      }
      var msg := LoadPayload(f, w);
      dnsEvents.Finish(ev.value, DnsEvent(e, msg, stale), IsValidDnsResponse(msg, w.len));
    }

    /** The connect hook: a destination in the map is replaced by the proxy's address, whether or not the event fits. */
    method CgroupConnect4(ctx: SockAddr, c: Caller, room: bool, stale: StaleEvent)
      requires Valid()
      modifies ctx, redirectEvents
      ensures Valid()
      ensures View() == AfterConnect(e, old(View()), old(ctx.userIp4), old(ctx.userPort), c, room, stale)
      ensures (ctx.userIp4, ctx.userPort) == Rerouted(old(View()), old(ctx.userIp4), old(ctx.userPort))
    {
      ghost var before := View();
      var dstIp, dstPort := ctx.userIp4, ctx.userPort % 0x1_0000;
      if dstIp !in dest.entries {
        return;
      }
      var hostname := dest.entries[dstIp];
      var ev := redirectEvents.Reserve(room);
      if ev.Some? {
        var event := Redirect(c.pidTgid % 0x1_0000_0000, c.pidTgid / 0x1_0000_0000, dstIp, dstPort,
                              proxy.ip, proxy.port, hostname, c.command, c.now);
        assert event == EventOf(before, dstIp, ctx.userPort, c);
        redirectEvents.Finish(ev.value, RedirectEvent(e, event, stale), true);
      }
      ctx.userIp4 := proxy.ip;
      ctx.userPort := proxy.port;
    }
  }
}
