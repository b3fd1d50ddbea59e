/** The two passes over the answers of a DNS message (ProcessDNSEvent), against chains of CNAME records. */
module CnamePass {
  import opened Bytes
  import opened DomainMatch

  datatype Record = Cname(owner: Name, target: Name) | Address(owner: Name, ip: seq<byte>) | Other

  function Owner(r: Record): Name
    requires !r.Other?
  {
    TrimDot(r.owner)
  }

  function Target(r: Record): Name
    requires r.Cname?
  {
    TrimDot(r.target)
  }

  // ---------- The first pass ----------

  function CnameStep(domains: seq<Name>, m: map<Name, Name>, r: Record): map<Name, Name> {
    if !r.Cname? then m
    else if IsAI(domains, Owner(r)) then m[Target(r) := Owner(r)]
    else if Owner(r) in m then m[Target(r) := m[Owner(r)]]
    else m
  }

  /** The alias map after the first `n` answers. */
  function Aliases(domains: seq<Name>, ans: seq<Record>, n: nat): map<Name, Name>
    requires n <= |ans|
  {
    if n == 0 then map[] else CnameStep(domains, Aliases(domains, ans, n - 1), ans[n - 1])
  }

  method BuildAliases(domains: seq<Name>, ans: seq<Record>) returns (m: map<Name, Name>)
    ensures m == Aliases(domains, ans, |ans|)
  {
    m := map[];
    for i := 0 to |ans|
      invariant m == Aliases(domains, ans, i)
    {
      if ans[i].Cname? {
        var src, tgt := Owner(ans[i]), Target(ans[i]);
        var ai := IsAIDomain(domains, src);
        if ai {
          m := m[tgt := src];
        } else if src in m {
          m := m[tgt := m[src]];
        }
      }
    }
  }

  // ---------- Chains ----------

  /** `c` lists positions of CNAME records among the first `n` answers, each record's target being the next one's
      owner. */
  ghost predicate Linked(ans: seq<Record>, n: nat, c: seq<nat>) {
    && c != [] && n <= |ans|
    && (forall i :: 0 <= i < |c| ==> c[i] < n && ans[c[i]].Cname?)
    && (forall i, j :: 0 <= i < j < |c| && j == i + 1 ==> Target(ans[c[i]]) == Owner(ans[c[j]]))
  }

  ghost predicate Increasing(c: seq<nat>) {
    forall i, j :: 0 <= i < j < |c| ==> c[i] < c[j]
  }

  /** A path in the CNAME graph from an AI name to `name`; the records may stand in any order. */
  ghost predicate Path(domains: seq<Name>, ans: seq<Record>, n: nat, c: seq<nat>, name: Name) {
    Linked(ans, n, c) && IsAI(domains, Owner(ans[c[0]])) && Target(ans[c[|c| - 1]]) == name
  }

  /** A path whose records stand in order. */
  ghost predicate Chain(domains: seq<Name>, ans: seq<Record>, n: nat, c: seq<nat>, name: Name) {
    Path(domains, ans, n, c, name) && Increasing(c)
  }

  ghost predicate Chained(domains: seq<Name>, ans: seq<Record>, n: nat, name: Name) {
    exists c :: Chain(domains, ans, n, c, name)
  }

  /** The record at `k` carries an AI name on to its target. */
  ghost predicate Carries(domains: seq<Name>, ans: seq<Record>, k: nat) {
    k < |ans| && ans[k].Cname? && (IsAI(domains, Owner(ans[k])) || Chained(domains, ans, k, Owner(ans[k])))
  }

  /** No record strictly between `from` and `until` carries an AI name to `name`. */
  ghost predicate Unwritten(domains: seq<Name>, ans: seq<Record>, from: nat, until: nat, name: Name) {
    forall k :: from < k < until && Carries(domains, ans, k) ==> Target(ans[k]) != name
  }

  /** What the `i`-th link of `c` wrote is not overwritten before the next link reads it, or before `n`. */
  ghost predicate Holds(domains: seq<Name>, ans: seq<Record>, n: nat, c: seq<nat>, i: nat) {
    && i < |c| && c[i] < |ans| && ans[c[i]].Cname?
    && Unwritten(domains, ans, c[i], if i + 1 < |c| then c[i + 1] else n, Target(ans[c[i]]))
  }

  /** A chain that starts anew at no later link, and whose every link is the last record that carries an AI
      name to that target before the next link reads it. */
  ghost predicate LatestChain(domains: seq<Name>, ans: seq<Record>, n: nat, c: seq<nat>, name: Name) {
    && Chain(domains, ans, n, c, name)
    && (forall i :: 0 < i < |c| ==> !IsAI(domains, Owner(ans[c[i]])))
    && (forall i :: 0 <= i < |c| ==> Holds(domains, ans, n, c, i))
  }

  lemma {:induction false} ChainedIsKey(domains: seq<Name>, ans: seq<Record>, n: nat, c: seq<nat>, name: Name)
    requires Chain(domains, ans, n, c, name)
    ensures name in Aliases(domains, ans, n)
    decreases n
  {
    var last := c[|c| - 1];
    if last < n - 1 {
      forall i | 0 <= i < |c| ensures c[i] < n - 1 {
      }
      ChainedIsKey(domains, ans, n - 1, c, name);
    } else if |c| > 1 {
      var front := c[..|c| - 1];
      assert Chain(domains, ans, n - 1, front, Owner(ans[last]));
      ChainedIsKey(domains, ans, n - 1, front, Owner(ans[last]));
    }
  }

  /** Every entry of the alias map comes from a latest chain. */
  lemma {:induction false} KeyHasLatestChain(domains: seq<Name>, ans: seq<Record>, n: nat, name: Name)
    returns (c: seq<nat>)
    requires n <= |ans| && name in Aliases(domains, ans, n)
    ensures LatestChain(domains, ans, n, c, name)
    ensures Owner(ans[c[0]]) == Aliases(domains, ans, n)[name]
    decreases n, 0
  {
    var k := n - 1;
    if Starts(domains, ans[k], name) {
      c := [k];
      StartLatest(domains, ans, k);
    } else if Extends(domains, Aliases(domains, ans, k), ans[k], name) {
      c := KeyHasLatestChain(domains, ans, k, Owner(ans[k]));
      ExtendLatest(domains, ans, k, c);
      c := c + [k];
    } else {
      c := KeyHasLatestChain(domains, ans, k, name);
      CarriesIffWrites(domains, ans, k);
      KeepLatest(domains, ans, k, c, name);
    }
  }

  /** The record starts a chain at its AI owner and ends it at `name`. */
  predicate Starts(domains: seq<Name>, r: Record, name: Name) {
    r.Cname? && IsAI(domains, Owner(r)) && Target(r) == name
  }

  /** The record carries the origin of its owner on to `name`. */
  predicate Extends(domains: seq<Name>, m: map<Name, Name>, r: Record, name: Name) {
    r.Cname? && !IsAI(domains, Owner(r)) && Owner(r) in m && Target(r) == name
  }

  lemma StartLatest(domains: seq<Name>, ans: seq<Record>, k: nat)
    requires k < |ans| && ans[k].Cname? && IsAI(domains, Owner(ans[k]))
    ensures LatestChain(domains, ans, k + 1, [k], Target(ans[k]))
  {
    var c, n := [k], k + 1;
    assert Chain(domains, ans, n, c, Target(ans[k]));
    assert Holds(domains, ans, n, c, 0);
  }

  lemma ExtendChain(domains: seq<Name>, ans: seq<Record>, k: nat, front: seq<nat>)
    requires k < |ans| && ans[k].Cname? && Chain(domains, ans, k, front, Owner(ans[k]))
    ensures Chain(domains, ans, k + 1, front + [k], Target(ans[k]))
  {
  }

  lemma ExtendLatest(domains: seq<Name>, ans: seq<Record>, k: nat, front: seq<nat>)
    requires k < |ans| && ans[k].Cname? && !IsAI(domains, Owner(ans[k]))
    requires LatestChain(domains, ans, k, front, Owner(ans[k]))
    ensures LatestChain(domains, ans, k + 1, front + [k], Target(ans[k]))
  {
    var c, n := front + [k], k + 1;
    ExtendChain(domains, ans, k, front);
    forall i | 0 <= i < |c| ensures Holds(domains, ans, n, c, i) {
      if i < |front| {
        assert Holds(domains, ans, k, front, i);
      }
    }
  }

  lemma KeepLatest(domains: seq<Name>, ans: seq<Record>, k: nat, c: seq<nat>, name: Name)
    requires k < |ans| && LatestChain(domains, ans, k, c, name)
    requires Carries(domains, ans, k) ==> Target(ans[k]) != name
    ensures LatestChain(domains, ans, k + 1, c, name)
  {
    var n := k + 1;
    assert Chain(domains, ans, n, c, name);
    forall i | 0 <= i < |c| ensures Holds(domains, ans, n, c, i) {
      assert Holds(domains, ans, k, c, i);
    }
  }

  lemma CarriesIffWrites(domains: seq<Name>, ans: seq<Record>, k: nat)
    requires k < |ans|
    ensures Carries(domains, ans, k) <==>
              ans[k].Cname? && (IsAI(domains, Owner(ans[k])) || Owner(ans[k]) in Aliases(domains, ans, k))
    decreases k, 2
  {
    if ans[k].Cname? {
      KeysAreChained(domains, ans, k, Owner(ans[k]));
    }
  }

  /** The keys of the alias map are exactly the names reached from an AI owner by CNAME records in order. */
  lemma {:induction false} KeysAreChained(domains: seq<Name>, ans: seq<Record>, n: nat, name: Name)
    requires n <= |ans|
    ensures name in Aliases(domains, ans, n) <==> Chained(domains, ans, n, name)
    decreases n, 1
  {
    if name in Aliases(domains, ans, n) {
      var c := KeyHasLatestChain(domains, ans, n, name);
    }
    if Chained(domains, ans, n, name) {
      var c :| Chain(domains, ans, n, c, name);
      ChainedIsKey(domains, ans, n, c, name);
    }
  }

  /** A latest chain determines the entry. */
  lemma {:induction false} LatestChainIsValue(domains: seq<Name>, ans: seq<Record>, n: nat, c: seq<nat>, name: Name)
    requires LatestChain(domains, ans, n, c, name)
    ensures name in Aliases(domains, ans, n) && Aliases(domains, ans, n)[name] == Owner(ans[c[0]])
    decreases n
  {
    var last := |c| - 1;
    if c[last] < n - 1 {
      assert Holds(domains, ans, n, c, last);
      CarriesIffWrites(domains, ans, n - 1);
      ShrinkLatest(domains, ans, n, c, name);
      LatestChainIsValue(domains, ans, n - 1, c, name);
    } else if |c| > 1 {
      FrontIsLatest(domains, ans, n, c, name);
      LatestChainIsValue(domains, ans, n - 1, c[..last], Owner(ans[c[last]]));
    }
  }

  lemma ShrinkLatest(domains: seq<Name>, ans: seq<Record>, n: nat, c: seq<nat>, name: Name)
    requires LatestChain(domains, ans, n, c, name) && c[|c| - 1] < n - 1
    ensures LatestChain(domains, ans, n - 1, c, name)
  {
    forall i | 0 <= i < |c| ensures c[i] < n - 1 {
    }
    var k := n - 1;
    assert Chain(domains, ans, k, c, name);
    forall i | 0 <= i < |c| ensures Holds(domains, ans, k, c, i) {
      assert Holds(domains, ans, n, c, i);
    }
  }

  lemma FrontIsLatest(domains: seq<Name>, ans: seq<Record>, n: nat, c: seq<nat>, name: Name)
    requires LatestChain(domains, ans, n, c, name) && |c| > 1 && c[|c| - 1] == n - 1
    ensures LatestChain(domains, ans, n - 1, c[..|c| - 1], Owner(ans[n - 1]))
  {
    var front, k := c[..|c| - 1], n - 1;
    assert Chain(domains, ans, k, front, Owner(ans[k]));
    forall i | 0 <= i < |front| ensures Holds(domains, ans, k, front, i) {
      assert Holds(domains, ans, n, c, i);
    }
  }

  /** The alias map exactly: `name` is mapped to `origin` if and only if `origin` is the AI owner at the start of a
      latest chain to `name`. Overwrites by later records are accounted for. */
  lemma {:induction false} AliasesExactly(domains: seq<Name>, ans: seq<Record>, name: Name, origin: Name)
    ensures name in Aliases(domains, ans, |ans|) && Aliases(domains, ans, |ans|)[name] == origin
       <==> exists c :: LatestChain(domains, ans, |ans|, c, name) && Owner(ans[c[0]]) == origin
  {
    if name in Aliases(domains, ans, |ans|) {
      var c := KeyHasLatestChain(domains, ans, |ans|, name);
    }
    var m := Aliases(domains, ans, |ans|);
    forall c | LatestChain(domains, ans, |ans|, c, name) ensures name in m && m[name] == Owner(ans[c[0]]) {
      LatestChainIsValue(domains, ans, |ans|, c, name);
    }
  }

  // ---------- The second pass ----------

  /** The four octets of an address held in 4 or 16 bytes, if it is an IPv4 address. */
  function To4(ip: seq<byte>): (r: Option<seq<byte>>)
    ensures r.Some? ==> |r.value| == 4
  {
    if |ip| == 4 then Some(ip)
    else if |ip| == 16 && ip[..12] == [0, 0, 0, 0, 0, 0, 0, 0, 0, 0, 0xFF, 0xFF] then Some(ip[12..])
    else None
  }

  /** The address field holds the IPv4 address `octets`: as four bytes, or as the last four of sixteen behind ten zeros
      and two bytes of 255. */
  predicate HoldsOctets(ip: seq<byte>, octets: seq<byte>) {
    && |octets| == 4
    && (ip == octets ||
        (|ip| == 16 && (forall k :: 0 <= k < 10 ==> ip[k] == 0) && ip[10] == 255 && ip[11] == 255
         && ip[12..] == octets))
  }

  lemma To4Iff(ip: seq<byte>, octets: seq<byte>)
    ensures To4(ip) == Some(octets) <==> HoldsOctets(ip, octets)
  {
    if HoldsOctets(ip, octets) && ip != octets {
      assert ip[..12] == [0, 0, 0, 0, 0, 0, 0, 0, 0, 0, 0xFF, 0xFF];
    }
    if |ip| == 16 && To4(ip).Some? {
      var front := ip[..12];
      assert forall k :: 0 <= k < 12 ==> ip[k] == front[k];
    }
  }

  datatype Destination = Destination(ip: seq<byte>, host: Name)

  /** The destination that one answer yields under the alias map `m`. */
  function Resolve(domains: seq<Name>, m: map<Name, Name>, r: Record): (d: Option<Destination>)
    ensures d.Some? ==> |d.value.ip| == 4
  {
    if !r.Address? || To4(r.ip).None? then None
    else if IsAI(domains, Owner(r)) then Some(Destination(To4(r.ip).value, Owner(r)))
    else if Owner(r) in m && m[Owner(r)] != [] then Some(Destination(To4(r.ip).value, m[Owner(r)]))
    else None
  }

  /** The destinations written for the first `n` answers, in order. */
  function Destinations(domains: seq<Name>, m: map<Name, Name>, ans: seq<Record>, n: nat): seq<Destination>
    requires n <= |ans|
  {
    if n == 0 then []
    else
      var d := Resolve(domains, m, ans[n - 1]);
      Destinations(domains, m, ans, n - 1) + if d.Some? then [d.value] else []
  }

  /** All destinations a message yields. */
  function Resolved(domains: seq<Name>, ans: seq<Record>): seq<Destination> {
    Destinations(domains, Aliases(domains, ans, |ans|), ans, |ans|)
  }

  lemma {:induction false} DestinationsFrom(domains: seq<Name>, m: map<Name, Name>, ans: seq<Record>, n: nat,
                                            d: Destination)
    requires n <= |ans|
    ensures d in Destinations(domains, m, ans, n) <==>
              exists i :: 0 <= i < n && Resolve(domains, m, ans[i]) == Some(d)
  {
    if n == 0 {
    } else {
      DestinationsFrom(domains, m, ans, n - 1, d);
    }
  }

  /** `at` lists, in order, all positions among the first `n` answers that yield a destination. */
  ghost predicate YieldingPositions(domains: seq<Name>, m: map<Name, Name>, ans: seq<Record>, n: nat, at: seq<nat>) {
    && n <= |ans| && Increasing(at)
    && (forall i :: 0 <= i < |at| ==> at[i] < n && Resolve(domains, m, ans[at[i]]).Some?)
    && (forall k :: 0 <= k < n && Resolve(domains, m, ans[k]).Some? ==> k in at)
  }

  /** Destinations are written once per yielding answer, in the order of the answers. */
  lemma {:induction false} DestinationsInOrder(domains: seq<Name>, m: map<Name, Name>, ans: seq<Record>, n: nat)
    returns (at: seq<nat>)
    requires n <= |ans|
    ensures YieldingPositions(domains, m, ans, n, at)
    ensures var ds := Destinations(domains, m, ans, n);
            |ds| == |at| && forall i :: 0 <= i < |at| ==> Resolve(domains, m, ans[at[i]]) == Some(ds[i])
  {
    at := [];
    if n == 0 {
    } else {
      at := DestinationsInOrder(domains, m, ans, n - 1);
      if Resolve(domains, m, ans[n - 1]).Some? {
        OneMorePosition(domains, m, ans, n - 1, at);
        at := at + [n - 1];
      } else {
        assert YieldingPositions(domains, m, ans, n, at);
      }
    }
  }

  lemma OneMorePosition(domains: seq<Name>, m: map<Name, Name>, ans: seq<Record>, n: nat, at: seq<nat>)
    requires n < |ans| && YieldingPositions(domains, m, ans, n, at) && Resolve(domains, m, ans[n]).Some?
    ensures YieldingPositions(domains, m, ans, n + 1, at + [n])
  {
    forall k | 0 <= k < n + 1 && Resolve(domains, m, ans[k]).Some? ensures k in at + [n] {
      if k < n {
        assert k in at;
      }
    }
  }

  /** The name `host` is the reason why `r`'s address is an AI address: it is `r`'s own AI name, or the AI name at the
      start of a chain of in-order CNAME records, with no AI owner after the first, that ends at `r`'s name. */
  ghost predicate Explains(domains: seq<Name>, ans: seq<Record>, r: Record, host: Name) {
    r.Address? && IsAI(domains, host) &&
    if IsAI(domains, Owner(r)) then host == Owner(r)
    else exists c :: LatestChain(domains, ans, |ans|, c, Owner(r)) && Owner(ans[c[0]]) == host
  }

  /** The written destinations exactly: the IPv4 addresses of A records with an explanation, and its name. */
  lemma {:induction false} ResolvedExactly(domains: seq<Name>, ans: seq<Record>, d: Destination)
    ensures d in Resolved(domains, ans) <==>
              exists i :: 0 <= i < |ans| && Explains(domains, ans, ans[i], d.host) && HoldsOctets(ans[i].ip, d.ip)
                          && (d.host != [] || IsAI(domains, Owner(ans[i])))
  {
    var m := Aliases(domains, ans, |ans|);
    DestinationsFrom(domains, m, ans, |ans|, d);
    forall i | 0 <= i < |ans|
      ensures Resolve(domains, m, ans[i]) == Some(d) <==>
                Explains(domains, ans, ans[i], d.host) && HoldsOctets(ans[i].ip, d.ip)
                && (d.host != [] || IsAI(domains, Owner(ans[i])))
    {
      if ans[i].Address? {
        To4Iff(ans[i].ip, d.ip);
        AliasesExactly(domains, ans, Owner(ans[i]), d.host);
      }
    }
  }

  // ---------- On the records as they arrive ----------

  /** An A record of an AI name, written with its final dot, is written as exactly its own four octets. */
  lemma {:induction false} QualifiedAddressWritten(domains: seq<Name>, ans: seq<Record>, i: nat, n: Name, ip: seq<byte>)
    requires i < |ans| && IsAI(domains, n) && |ip| == 4
    requires ans[i] == Address(n + [46], ip) ||
             ans[i] == Address(n + [46], [0, 0, 0, 0, 0, 0, 0, 0, 0, 0, 255, 255] + ip)
    ensures Destination(ip, n) in Resolved(domains, ans)
  {
    QualifiedTrims(n);
    assert ans[i].ip == ip || ans[i].ip[12..] == ip;
    To4Iff(ans[i].ip, ip);
    DestinationsFrom(domains, Aliases(domains, ans, |ans|), ans, |ans|, Destination(ip, n));
  }

  /** An A record that does not hold an IPv4 address writes nothing. */
  lemma {:induction false} OtherAddressNotWritten(domains: seq<Name>, m: map<Name, Name>, r: Record)
    requires r.Address? && forall octets :: !HoldsOctets(r.ip, octets)
    ensures Resolve(domains, m, r) == None
  {
    if To4(r.ip).Some? {
      To4Iff(r.ip, To4(r.ip).value);
    }
  }

  /** The common answer: an AI name, its alias and the alias's address, all with their final dots. The address is
      written under the AI name. */
  lemma {:induction false} AliasedAddressWritten(domains: seq<Name>, ai: Name, alias: Name, ip: seq<byte>,
                                                 ans: seq<Record>)
    requires ai != [] && IsAI(domains, ai) && !IsAI(domains, alias) && |ip| == 4
    requires |ans| == 2 && ans[0] == Cname(ai + [46], alias + [46]) && ans[1] == Address(alias + [46], ip)
    ensures Resolved(domains, ans) == [Destination(ip, ai)]
  {
    QualifiedTrims(ai);
    QualifiedTrims(alias);
    To4Iff(ip, ip);
    assert Aliases(domains, ans, 1) == map[alias := ai];
    var m := Aliases(domains, ans, 2);
    assert Destinations(domains, m, ans, 1) == [];
  }

  /** The record with every name written with its final dot. */
  function QualifiedRecord(r: Record): Record {
    match r
    case Cname(owner, target) => Cname(Qualified(owner), Qualified(target))
    case Address(owner, ip) => Address(Qualified(owner), ip)
    case Other => Other
  }

  /** Final dots make no difference: the answers with and without them write the same destinations. */
  lemma {:induction false} FinalDotsIgnored(domains: seq<Name>, ans: seq<Record>, dotted: seq<Record>)
    requires |dotted| == |ans| && forall i :: 0 <= i < |ans| ==> dotted[i] == QualifiedRecord(ans[i])
    ensures Resolved(domains, dotted) == Resolved(domains, ans)
  {
    SameAliases(domains, ans, dotted, |ans|);
    SameDestinations(domains, Aliases(domains, ans, |ans|), ans, dotted, |ans|);
  }

  lemma SameNames(r: Record)
    ensures !r.Other? ==> Owner(QualifiedRecord(r)) == Owner(r)
    ensures r.Cname? ==> Target(QualifiedRecord(r)) == Target(r)
  {
    if !r.Other? {
      QualifiedTrims(r.owner);
    }
    if r.Cname? {
      QualifiedTrims(r.target);
    }
  }

  lemma {:induction false} SameAliases(domains: seq<Name>, ans: seq<Record>, dotted: seq<Record>, n: nat)
    requires |dotted| == |ans| && n <= |ans| && forall i :: 0 <= i < |ans| ==> dotted[i] == QualifiedRecord(ans[i])
    ensures Aliases(domains, dotted, n) == Aliases(domains, ans, n)
  {
    if n == 0 {
    } else {
      SameAliases(domains, ans, dotted, n - 1);
      SameNames(ans[n - 1]);
    }
  }

  lemma {:induction false} SameDestinations(domains: seq<Name>, m: map<Name, Name>, ans: seq<Record>,
                                            dotted: seq<Record>, n: nat)
    requires |dotted| == |ans| && n <= |ans| && forall i :: 0 <= i < |ans| ==> dotted[i] == QualifiedRecord(ans[i])
    ensures Destinations(domains, m, dotted, n) == Destinations(domains, m, ans, n)
  {
    if n == 0 {
    } else {
      SameDestinations(domains, m, ans, dotted, n - 1);
      SameNames(ans[n - 1]);
    }
  }

  // ---------- One pass and the order-free graph ----------

  predicate Continues(r: Record, next: Record) {
    r.Cname? && next.Cname? && Target(r) == Owner(next)
  }

  /** Every CNAME stands before each CNAME that continues it. */
  ghost predicate Ordered(ans: seq<Record>) {
    forall i, j :: 0 <= i < |ans| && 0 <= j < |ans| && Continues(ans[i], ans[j]) ==> i < j
  }

  lemma {:induction false} OrderedPathIncreases(ans: seq<Record>, c: seq<nat>, i: nat, j: nat)
    requires Ordered(ans) && Linked(ans, |ans|, c) && i < j < |c|
    ensures c[i] < c[j]
    decreases j
  {
    assert Continues(ans[c[j - 1]], ans[c[j]]);
    if i == j - 1 {
    } else {
      OrderedPathIncreases(ans, c, i, j - 1);
    }
  }

  /** `name` is reached from an AI name in the CNAME graph, whatever the order of the records. */
  ghost predicate Reached(domains: seq<Name>, ans: seq<Record>, name: Name) {
    exists c :: Path(domains, ans, |ans|, c, name)
  }

  /** One pass in order never finds more than the graph holds, and on ordered answers finds all of it. */
  lemma {:induction false} PassRefinesClosure(domains: seq<Name>, ans: seq<Record>, name: Name)
    ensures name in Aliases(domains, ans, |ans|) ==> Reached(domains, ans, name)
    ensures Ordered(ans) ==> (name in Aliases(domains, ans, |ans|) <==> Reached(domains, ans, name))
  {
    KeysAreChained(domains, ans, |ans|, name);
    if Ordered(ans) && Reached(domains, ans, name) {
      var c :| Path(domains, ans, |ans|, c, name);
      forall i, j | 0 <= i < j < |c| ensures c[i] < c[j] {
        OrderedPathIncreases(ans, c, i, j);
      }
      assert Chain(domains, ans, |ans|, c, name);
    }
  }

  /** The answer at `i` is an A record of `ip`, and its name is an AI name or is reached from one in the graph. */
  ghost predicate ReachesAddress(domains: seq<Name>, ans: seq<Record>, i: nat, ip: seq<byte>) {
    && i < |ans| && ans[i].Address? && HoldsOctets(ans[i].ip, ip)
    && (IsAI(domains, Owner(ans[i])) || Reached(domains, ans, Owner(ans[i])))
  }

  ghost predicate AddressReached(domains: seq<Name>, ans: seq<Record>, ip: seq<byte>) {
    exists i: nat :: ReachesAddress(domains, ans, i, ip)
  }

  ghost predicate AddressWritten(domains: seq<Name>, ans: seq<Record>, ip: seq<byte>) {
    exists d :: d in Resolved(domains, ans) && d.ip == ip
  }

  /** With ordered answers and no empty domain, the written addresses are exactly the A records whose name is
      an AI name or is reached from one in the graph. */
  lemma {:induction false} OnePassRefinesClosure(domains: seq<Name>, ans: seq<Record>, ip: seq<byte>)
    requires Ordered(ans) && [] !in domains
    ensures AddressWritten(domains, ans, ip) <==> AddressReached(domains, ans, ip)
  {
    var m := Aliases(domains, ans, |ans|);
    if AddressWritten(domains, ans, ip) {
      var d :| d in Resolved(domains, ans) && d.ip == ip;
      DestinationsFrom(domains, m, ans, |ans|, d);
      var i :| 0 <= i < |ans| && Resolve(domains, m, ans[i]) == Some(d);
      PassRefinesClosure(domains, ans, Owner(ans[i]));
      To4Iff(ans[i].ip, ip);
      assert ReachesAddress(domains, ans, i, ip);
    }
    if i: nat :| ReachesAddress(domains, ans, i, ip) {
      To4Iff(ans[i].ip, ip);
      ReachedResolves(domains, ans, i);
      var d := Resolve(domains, m, ans[i]).value;
      DestinationsFrom(domains, m, ans, |ans|, d);
    }
  }

  lemma ReachedResolves(domains: seq<Name>, ans: seq<Record>, i: nat)
    requires Ordered(ans) && [] !in domains && i < |ans| && ans[i].Address? && To4(ans[i].ip).Some?
    requires IsAI(domains, Owner(ans[i])) || Reached(domains, ans, Owner(ans[i]))
    ensures var d := Resolve(domains, Aliases(domains, ans, |ans|), ans[i]);
            d.Some? && d.value.ip == To4(ans[i].ip).value
  {
    var name := Owner(ans[i]);
    if !IsAI(domains, name) {
      PassRefinesClosure(domains, ans, name);
      var c := KeyHasLatestChain(domains, ans, |ans|, name);
      AINamesNonEmpty(domains, Owner(ans[c[0]]));
    }
  }

  /** Every CNAME whose owner is reached in order has its target reached in order too: going through the answers once
      more would add no name. */
  ghost predicate Closed(domains: seq<Name>, ans: seq<Record>) {
    forall k :: 0 <= k < |ans| && ans[k].Cname? && Chained(domains, ans, |ans|, Owner(ans[k])) ==>
                  Chained(domains, ans, |ans|, Target(ans[k]))
  }

  lemma {:induction false} ClosedFollowsPaths(domains: seq<Name>, ans: seq<Record>, c: seq<nat>, name: Name)
    requires Closed(domains, ans) && Path(domains, ans, |ans|, c, name)
    ensures Chained(domains, ans, |ans|, name)
    decreases |c|
  {
    var last := |c| - 1;
    if last == 0 {
      assert Chain(domains, ans, |ans|, c, name);
    } else {
      assert Path(domains, ans, |ans|, c[..last], Owner(ans[c[last]]));
      ClosedFollowsPaths(domains, ans, c[..last], Owner(ans[c[last]]));
    }
  }

  lemma ReachedGoesOn(domains: seq<Name>, ans: seq<Record>, k: nat)
    requires k < |ans| && ans[k].Cname? && Reached(domains, ans, Owner(ans[k]))
    ensures Reached(domains, ans, Target(ans[k]))
  {
    var c :| Path(domains, ans, |ans|, c, Owner(ans[k]));
    assert Path(domains, ans, |ans|, c + [k], Target(ans[k]));
  }

  /** The pass finds every reached name if and only if all of them are reached in order, which is the case if and only
      if the answers are closed. Order of the records is sufficient (PassRefinesClosure) but not necessary. */
  lemma {:induction false} PassCompleteIff(domains: seq<Name>, ans: seq<Record>)
    ensures (forall name :: Reached(domains, ans, name) ==> name in Aliases(domains, ans, |ans|)) <==>
            (forall name :: Reached(domains, ans, name) ==> Chained(domains, ans, |ans|, name))
    ensures (forall name :: Reached(domains, ans, name) ==> name in Aliases(domains, ans, |ans|)) <==>
            Closed(domains, ans)
  {
    forall name ensures name in Aliases(domains, ans, |ans|) <==> Chained(domains, ans, |ans|, name) {
      KeysAreChained(domains, ans, |ans|, name);
    }
    if Closed(domains, ans) {
      forall name | Reached(domains, ans, name) ensures Chained(domains, ans, |ans|, name) {
        var c :| Path(domains, ans, |ans|, c, name);
        ClosedFollowsPaths(domains, ans, c, name);
      }
    }
    forall k | 0 <= k < |ans| && ans[k].Cname? && Chained(domains, ans, |ans|, Owner(ans[k]))
      ensures Reached(domains, ans, Target(ans[k]))
    {
      var c :| Chain(domains, ans, |ans|, c, Owner(ans[k]));
      ReachedGoesOn(domains, ans, k);
    }
  }

  /** The answer at `i` is an A record of `ip`, and its name is an AI name or the end of a latest chain whose origin
      is not empty. */
  ghost predicate WritesAddress(domains: seq<Name>, ans: seq<Record>, i: nat, ip: seq<byte>) {
    && i < |ans| && ans[i].Address? && HoldsOctets(ans[i].ip, ip)
    && (IsAI(domains, Owner(ans[i])) ||
        exists c :: LatestChain(domains, ans, |ans|, c, Owner(ans[i])) && Owner(ans[c[0]]) != [])
  }

  lemma WrittenAddressIff(domains: seq<Name>, ans: seq<Record>, ip: seq<byte>)
    ensures AddressWritten(domains, ans, ip) <==> exists i: nat :: WritesAddress(domains, ans, i, ip)
  {
    var m := Aliases(domains, ans, |ans|);
    if AddressWritten(domains, ans, ip) {
      var d :| d in Resolved(domains, ans) && d.ip == ip;
      DestinationsFrom(domains, m, ans, |ans|, d);
      var i :| 0 <= i < |ans| && Resolve(domains, m, ans[i]) == Some(d);
      AliasesExactly(domains, ans, Owner(ans[i]), d.host);
      To4Iff(ans[i].ip, ip);
      assert WritesAddress(domains, ans, i, ip);
    }
    if i: nat :| WritesAddress(domains, ans, i, ip) {
      To4Iff(ans[i].ip, ip);
      if !IsAI(domains, Owner(ans[i])) {
        var c :| LatestChain(domains, ans, |ans|, c, Owner(ans[i])) && Owner(ans[c[0]]) != [];
        LatestChainIsValue(domains, ans, |ans|, c, Owner(ans[i]));
      }
      var d := Resolve(domains, m, ans[i]).value;
      DestinationsFrom(domains, m, ans, |ans|, d);
    }
  }

  /** The written addresses are exactly the reached ones if and only if each reached A record's address has an A
      record, the same or another, whose name is an AI name or the end of a latest in-order chain from a non-empty AI
      name. Nothing is asked of the order of the records or of the configured domains. */
  lemma {:induction false} AddressesCompleteIff(domains: seq<Name>, ans: seq<Record>)
    ensures (forall ip :: AddressWritten(domains, ans, ip) <==> AddressReached(domains, ans, ip)) <==>
            (forall i: nat, ip :: ReachesAddress(domains, ans, i, ip) ==>
               exists j: nat :: WritesAddress(domains, ans, j, ip))
  {
    forall ip
      ensures AddressWritten(domains, ans, ip) <==> exists i: nat :: WritesAddress(domains, ans, i, ip)
      ensures AddressWritten(domains, ans, ip) ==> AddressReached(domains, ans, ip)
    {
      WrittenAddressIff(domains, ans, ip);
      if i: nat :| WritesAddress(domains, ans, i, ip) {
        assert ReachesAddress(domains, ans, i, ip);
      }
    }
    forall i: nat, ip | ReachesAddress(domains, ans, i, ip) ensures AddressReached(domains, ans, ip) {
    }
  }

  lemma ChainOfOne(domains: seq<Name>, ans: seq<Record>, i: nat)
    requires i < |ans| && ans[i].Cname? && IsAI(domains, Owner(ans[i]))
    ensures Chained(domains, ans, |ans|, Target(ans[i]))
  {
    assert Chain(domains, ans, |ans|, [i], Target(ans[i]));
  }

  lemma ChainOfTwo(domains: seq<Name>, ans: seq<Record>, i: nat, j: nat)
    requires i < j < |ans| && Continues(ans[i], ans[j]) && IsAI(domains, Owner(ans[i]))
    ensures Chained(domains, ans, |ans|, Target(ans[j]))
  {
    assert Chain(domains, ans, |ans|, [i, j], Target(ans[j]));
  }

  lemma {:induction false} RepeatedHeadClosed(domains: seq<Name>, ans: seq<Record>)
    requires |ans| == 3 && Continues(ans[0], ans[1]) && IsAI(domains, Owner(ans[0])) && ans[2] == ans[0]
    ensures !Ordered(ans) && Closed(domains, ans)
  {
    assert Continues(ans[2], ans[1]);
    ChainOfOne(domains, ans, 0);
    ChainOfTwo(domains, ans, 0, 1);
  }

  /** Answers that are not ordered and still complete: the order is sufficient, not necessary. */
  lemma {:induction false} UnorderedYetComplete(domains: seq<Name>, ans: seq<Record>)
    requires |ans| == 3 && Continues(ans[0], ans[1]) && IsAI(domains, Owner(ans[0])) && ans[2] == ans[0]
    ensures !Ordered(ans) && forall name :: Reached(domains, ans, name) ==> name in Aliases(domains, ans, |ans|)
  {
    RepeatedHeadClosed(domains, ans);
    PassCompleteIff(domains, ans);
  }

  /** The order matters: with the continuing record first, a reached name is missed. */
  lemma OrderMatters(ai: Name, alias: Name, canonical: Name)
    requires forall n :: n in [ai, alias, canonical] ==> TrimDot(n) == n
    requires ai != alias && ai != canonical && alias != canonical && !IsAI([ai], alias)
    ensures var ans := [Cname(alias, canonical), Cname(ai, alias)];
            Reached([ai], ans, canonical) && canonical !in Aliases([ai], ans, |ans|)
  {
    var ans := [Cname(alias, canonical), Cname(ai, alias)];
    assert TrimDot(ai) == ai && TrimDot(alias) == alias && TrimDot(canonical) == canonical;
    assert Matches(ai, [ai][0]);
    assert Path([ai], ans, 2, [1, 0], canonical);
    assert Aliases([ai], ans, 1) == map[];
  }

  /** An empty domain in the list loses addresses: the empty AI name is reached from but never written. */
  lemma EmptyDomainLosesAddress(alias: Name, ip: seq<byte>)
    requires |ip| == 4 && TrimDot(alias) == alias && !IsAI([[]], alias)
    ensures var ans := [Cname([], alias), Address(alias, ip)];
            Ordered(ans) && Reached([[]], ans, alias) && Resolved([[]], ans) == []
  {
    var ans := [Cname([], alias), Address(alias, ip)];
    assert Matches([], [[]][0]);
    assert alias != [];
    assert Path([[]], ans, 2, [0], alias);
    assert Aliases([[]], ans, 1) == map[alias := []];
    var m := Aliases([[]], ans, 2);
    assert Resolve([[]], m, ans[1]) == None && Resolve([[]], m, ans[0]) == None;
    assert Destinations([[]], m, ans, 1) == [];
  }
}
