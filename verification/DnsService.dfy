/** The DNS service: from a raw message to entries of the ai_destinations map. */
module DnsService {
  import opened Bytes
  import opened DomainMatch
  import opened CnamePass

  const MAX_HOSTNAME_LEN := 64

  /** The contents of a hostname field. */
  type HostField = b: seq<byte> | |b| == MAX_HOSTNAME_LEN witness seq(MAX_HOSTNAME_LEN, _ => 0)

  /** The hostname field of a map value: the name cut to 64 bytes, the rest zero. */
  function StoredName(host: Name): (b: HostField) {
    seq(MAX_HOSTNAME_LEN, i requires 0 <= i < MAX_HOSTNAME_LEN => if i < |host| then host[i] else 0)
  }

  /** What the kernel does with one map update: refuse it, or store it and evict any other entries. */
  datatype UpdateOutcome = Refused | Stored(evicted: set<uint32>)

  /** The contents of the ai_destinations map: address (as the machine reads it) to hostname field. */
  type Entries = map<uint32, HostField>

  function Updated(entries: Entries, key: uint32, value: HostField, outcome: UpdateOutcome): Entries {
    match outcome
    case Refused => entries
    case Stored(evicted) => (entries - evicted)[key := value]
  }

  class DestMap {
    var entries: Entries

    constructor ()
      ensures entries == map[]
    {
      entries := map[];
    }

    method Update(key: uint32, value: HostField, outcome: UpdateOutcome) returns (err: bool)
      modifies this
      ensures entries == Updated(old(entries), key, value, outcome)
      ensures err <==> outcome.Refused?
    {
      match outcome
      case Refused =>
        err := true;
      case Stored(evicted) =>
        entries := (entries - evicted)[key := value];
        err := false;
    }
  }

  function Outcome(env: seq<UpdateOutcome>, i: nat): UpdateOutcome {
    if i < |env| then env[i] else Stored({})
  }

  predicate AllIPv4(ds: seq<Destination>) {
    forall i :: 0 <= i < |ds| ==> |ds[i].ip| == 4
  }

  /** The map after writing the destinations `ds` in order; the error of an update is ignored. */
  function Written(e: Endian, entries: Entries, ds: seq<Destination>, env: seq<UpdateOutcome>): Entries
    requires AllIPv4(ds)
  {
    if ds == [] then entries
    else
      var n := |ds| - 1;
      Updated(Written(e, entries, ds[..n], env), Get32(e, ds[n].ip), StoredName(ds[n].host), Outcome(env, n))
  }

  lemma {:induction false} DestinationsAreIPv4(domains: seq<Name>, m: map<Name, Name>, ans: seq<Record>, n: nat)
    requires n <= |ans|
    ensures AllIPv4(Destinations(domains, m, ans, n))
  {
    if n == 0 {
    } else {
      DestinationsAreIPv4(domains, m, ans, n - 1);
    }
  }

  type Unpacker = seq<byte> -> Option<seq<Record>>

  /** The whole effect of one raw message on the map. */
  function Processed(e: Endian, domains: seq<Name>, unpack: Unpacker, entries: Entries, raw: seq<byte>,
                     env: seq<UpdateOutcome>): Entries {
    match unpack(raw)
    case None => entries
    case Some(ans) =>
      DestinationsAreIPv4(domains, Aliases(domains, ans, |ans|), ans, |ans|);
      Written(e, entries, Resolved(domains, ans), env)
  }

  class Service {
    const e: Endian
    const domains: seq<Name>
    const unpack: Unpacker
    const dest: DestMap

    constructor (e: Endian, domains: seq<Name>, unpack: Unpacker, dest: DestMap)
      ensures this.e == e && this.domains == domains && this.unpack == unpack && this.dest == dest
    {
      this.e, this.domains, this.unpack, this.dest := e, domains, unpack, dest;
    }

    method WriteDestination(ip4: seq<byte>, host: Name, outcome: UpdateOutcome)
      requires |ip4| == 4
      modifies dest
      ensures dest.entries == Updated(old(dest.entries), Get32(e, ip4), StoredName(host), outcome)
    {
      var key := Get32(e, ip4);
      var hostname := new byte[MAX_HOSTNAME_LEN](_ => 0);
      var i := 0;
      while i < |host| && i < hostname.Length
        modifies hostname
        invariant i <= |host| && i <= MAX_HOSTNAME_LEN
        invariant forall j :: 0 <= j < i ==> hostname[j] == host[j]
        invariant forall j :: i <= j < MAX_HOSTNAME_LEN ==> hostname[j] == 0
      {
        hostname[i] := host[i];
        i := i + 1;
      }
      var value := hostname[..];
      assert value == StoredName(host);
      var _ := dest.Update(key, value, outcome);
    }

    /** Handles one raw message; `env` is what the kernel does with the successive map updates. */
    method ProcessDNSEvent(raw: seq<byte>, env: seq<UpdateOutcome>) returns (err: bool)
      modifies dest
      ensures dest.entries == Processed(e, domains, unpack, old(dest.entries), raw, env)
      ensures err <==> unpack(raw).None?
    {
      if unpack(raw).None? {
        return true;
      }
      var ans := unpack(raw).value;
      var aliases := BuildAliases(domains, ans);
      WriteAll(ans, aliases, env);
      DestinationsAreIPv4(domains, aliases, ans, |ans|);
      err := false;
    }

    /** The destination of one answer under the alias map, if it has one. */
    method ResolveOne(aliases: map<Name, Name>, r: Record) returns (d: Option<Destination>)
      ensures d == Resolve(domains, aliases, r)
    {
      if !r.Address? {
        return None;
      }
      var ip4 := To4(r.ip);
      if ip4.None? {
        return None;
      }
      var name := Owner(r);
      var ai := IsAIDomain(domains, name);
      if ai {
        return Some(Destination(ip4.value, name));
      } else if name in aliases && aliases[name] != [] {
        return Some(Destination(ip4.value, aliases[name]));
      }
      return None;
    }

    method WriteAll(ans: seq<Record>, aliases: map<Name, Name>, env: seq<UpdateOutcome>)
      modifies dest
      ensures var ds := Destinations(domains, aliases, ans, |ans|);
              AllIPv4(ds) && dest.entries == Written(e, old(dest.entries), ds, env)
    {
      ghost var ds: seq<Destination> := [];
      var written := 0;
      for i := 0 to |ans|
        invariant ds == Destinations(domains, aliases, ans, i) && written == |ds| && AllIPv4(ds)
        invariant dest.entries == Written(e, old(dest.entries), ds, env)
      {
        var d := ResolveOne(aliases, ans[i]);
        if d.Some? {
          WriteDestination(d.value.ip, d.value.host, Outcome(env, written));
          WrittenAppend(e, old(dest.entries), ds, d.value, env);
          ds, written := ds + [d.value], written + 1;
        }
      }
    }
  }

  lemma WrittenAppend(e: Endian, entries: Entries, ds: seq<Destination>, d: Destination, env: seq<UpdateOutcome>)
    requires AllIPv4(ds) && |d.ip| == 4
    ensures AllIPv4(ds + [d])
    ensures Written(e, entries, ds + [d], env) ==
              Updated(Written(e, entries, ds, env), Get32(e, d.ip), StoredName(d.host), Outcome(env, |ds|))
  {
    assert (ds + [d])[..|ds|] == ds;
  }

  /** Every entry of the map after a message was there before or is the 64-byte name of a resolved destination. */
  lemma {:induction false} WrittenFrom(e: Endian, entries: Entries, ds: seq<Destination>, env: seq<UpdateOutcome>,
                                       key: uint32)
    requires AllIPv4(ds)
    requires key in Written(e, entries, ds, env)
    ensures var value := Written(e, entries, ds, env)[key];
            || (key in entries && value == entries[key])
            || (exists d :: d in ds && |d.ip| == 4 && Get32(e, d.ip) == key && value == StoredName(d.host))
  {
    if ds == [] {
    } else {
      var n := |ds| - 1;
      var before := Written(e, entries, ds[..n], env);
      if key in before {
        WrittenFrom(e, entries, ds[..n], env, key);
      }
      assert forall d :: d in ds[..n] ==> d in ds;
      assert ds[n] in ds;
    }
  }

  /** The outcome does not evict `key`. */
  predicate SparesKey(o: UpdateOutcome, key: uint32) {
    o.Stored? ==> key !in o.evicted
  }

  /** The `i`-th update of a message is stored, and no later one evicts its entry. */
  predicate StoresAt(e: Endian, ds: seq<Destination>, env: seq<UpdateOutcome>, i: nat)
    requires AllIPv4(ds)
  {
    && i < |ds| && Outcome(env, i).Stored?
    && forall j :: i < j < |ds| ==> SparesKey(Outcome(env, j), Get32(e, ds[i].ip))
  }

  /** An entry that the updates of a message spare stays in the map, perhaps under a new name. */
  lemma {:induction false} SparedStays(e: Endian, entries: Entries, ds: seq<Destination>, env: seq<UpdateOutcome>,
                                       key: uint32)
    requires AllIPv4(ds) && key in entries && forall j :: 0 <= j < |ds| ==> SparesKey(Outcome(env, j), key)
    ensures key in Written(e, entries, ds, env)
  {
    if ds == [] {
    } else {
      SparedStays(e, entries, ds[..|ds| - 1], env, key);
    }
  }

  /** A resolved address whose update is stored and not evicted by a later one is in the map afterwards, whatever
      happens to the other updates. */
  lemma {:induction false} StoredIsMapped(e: Endian, entries: Entries, ds: seq<Destination>, env: seq<UpdateOutcome>,
                                          i: nat)
    requires AllIPv4(ds) && StoresAt(e, ds, env, i)
    ensures Get32(e, ds[i].ip) in Written(e, entries, ds, env)
  {
    var n := |ds| - 1;
    if i == n {
    } else {
      assert StoresAt(e, ds[..n], env, i);
      StoredIsMapped(e, entries, ds[..n], env, i);
      assert SparesKey(Outcome(env, n), Get32(e, ds[i].ip));
    }
  }

  /** ... and holds the name of the last destination of that address whose update is stored. */
  lemma {:induction false} LastWriteWins(e: Endian, entries: Entries, ds: seq<Destination>, env: seq<UpdateOutcome>,
                                         i: nat)
    requires AllIPv4(ds) && StoresAt(e, ds, env, i)
    requires forall j :: i < j < |ds| && Outcome(env, j).Stored? ==> ds[j].ip != ds[i].ip
    ensures var key, after := Get32(e, ds[i].ip), Written(e, entries, ds, env);
            key in after && after[key] == StoredName(ds[i].host)
  {
    var n := |ds| - 1;
    if i == n {
    } else {
      assert StoresAt(e, ds[..n], env, i);
      LastWriteWins(e, entries, ds[..n], env, i);
      assert SparesKey(Outcome(env, n), Get32(e, ds[i].ip));
      PutGet(e, ds[i].ip);
      PutGet(e, ds[n].ip);
    }
  }

  /** An address that was not resolved gets no entry and no new name; it keeps its entry unless that is evicted. */
  lemma {:induction false} OthersKept(e: Endian, entries: Entries, ds: seq<Destination>, env: seq<UpdateOutcome>,
                                      octets: seq<byte>)
    requires AllIPv4(ds) && |octets| == 4 && forall i :: 0 <= i < |ds| ==> ds[i].ip != octets
    ensures var key, after := Get32(e, octets), Written(e, entries, ds, env);
            && (key in after ==> key in entries && after[key] == entries[key])
            && (key in entries && (forall j :: 0 <= j < |ds| ==> SparesKey(Outcome(env, j), key)) ==> key in after)
  {
    if ds == [] {
    } else {
      var n := |ds| - 1;
      OthersKept(e, entries, ds[..n], env, octets);
      PutGet(e, octets);
      PutGet(e, ds[n].ip);
    }
  }
}
