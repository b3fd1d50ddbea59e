/** Matching host names against the configured AI domains (isAIDomain). */
module DomainMatch {
  import opened Bytes

  type Name = seq<byte>

  const DOT: byte := 46

  predicate HasSuffix<T(==)>(s: seq<T>, suffix: seq<T>) {
    |suffix| <= |s| && s[|s| - |suffix|..] == suffix
  }

  /** The name without one trailing dot. */
  function TrimDot(n: Name): Name {
    if n != [] && n[|n| - 1] == DOT then n[..|n| - 1] else n
  }

  /** What cutting the dot means: exactly one final dot (46) is gone, and a name without one is left as it is. */
  lemma TrimDotIff(raw: Name, n: Name)
    ensures TrimDot(raw) == n <==> raw == n + [46] || (raw == n && (n == [] || n[|n| - 1] != 46))
  {
    if raw == n + [46] {
      assert raw[..|raw| - 1] == n;
    }
  }

  /** The name with a final dot, as fully qualified names are written. */
  function Qualified(n: Name): Name {
    if n != [] && n[|n| - 1] == 46 then n else n + [46]
  }

  lemma QualifiedTrims(n: Name)
    ensures TrimDot(Qualified(n)) == TrimDot(n) && TrimDot(n + [46]) == n
  {
    TrimDotIff(n + [46], n);
  }

  /** The comparison the code makes for one domain. */
  predicate Matches(host: Name, domain: Name) {
    host == domain || HasSuffix(host, [DOT] + domain)
  }

  predicate IsAI(domains: seq<Name>, host: Name) {
    exists i :: 0 <= i < |domains| && Matches(host, domains[i])
  }

  method IsAIDomain(domains: seq<Name>, host: Name) returns (r: bool)
    ensures r <==> IsAI(domains, host)
  {
    for i := 0 to |domains|
      invariant forall j :: 0 <= j < i ==> !Matches(host, domains[j])
    {
      if host == domains[i] || HasSuffix(host, [DOT] + domains[i]) {
        return true;
      }
    }
    return false;
  }

  // ---------- Labels: section 3.1 of RFC 1034 ----------

  /** The dot-separated labels of a name. */
  function Labels(n: Name): (ls: seq<Name>)
    ensures ls != []
  {
    if n == [] then [[]]
    else
      var rest := Labels(n[1..]);
      if n[0] == DOT then [[]] + rest else [[n[0]] + rest[0]] + rest[1..]
  }

  function Join(ls: seq<Name>): Name
    requires ls != []
  {
    if |ls| == 1 then ls[0] else ls[0] + [DOT] + Join(ls[1..])
  }

  lemma {:induction false} JoinLabels(n: Name)
    ensures Join(Labels(n)) == n
  {
    if n == [] {
    } else {
      var rest := Labels(n[1..]);
      JoinLabels(n[1..]);
      if n[0] == DOT {
        assert Labels(n)[1..] == rest;
      } else {
        assert Labels(n)[1..] == rest[1..];
        if |rest| > 1 {
          assert Join(Labels(n)) == ([n[0]] + rest[0]) + [DOT] + Join(rest[1..]);
        }
      }
      assert n == [n[0]] + n[1..];
    }
  }

  lemma {:induction false} LabelsOfDotted(a: Name, b: Name)
    ensures Labels(a + ([DOT] + b)) == Labels(a) + Labels(b)
  {
    var n := a + ([DOT] + b);
    if a == [] {
      assert n == [DOT] + b;
      assert n[1..] == b;
    } else {
      assert n[1..] == a[1..] + ([DOT] + b);
      LabelsOfDotted(a[1..], b);
      PrependToFirst(n[0], Labels(a[1..]), Labels(b));
    }
  }

  lemma PrependToFirst(x: byte, rest: seq<Name>, more: seq<Name>)
    requires rest != []
    ensures [[x] + (rest + more)[0]] + (rest + more)[1..] == ([[x] + rest[0]] + rest[1..]) + more
    ensures [[]] + (rest + more) == ([[]] + rest) + more
  {
  }

  lemma {:induction false} JoinConcat(a: seq<Name>, b: seq<Name>)
    requires a != [] && b != []
    ensures Join(a + b) == Join(a) + ([DOT] + Join(b))
  {
    if |a| == 1 {
      assert (a + b)[1..] == b;
    } else {
      assert (a + b)[1..] == a[1..] + b;
      JoinConcat(a[1..], b);
    }
  }

  lemma SuffixMeansLabels(host: Name, domain: Name)
    requires HasSuffix(host, [DOT] + domain)
    ensures HasSuffix(Labels(host), Labels(domain))
  {
    var a := host[..|host| - |domain| - 1];
    assert host == a + ([DOT] + domain);
    LabelsOfDotted(a, domain);
    SuffixOfConcat(Labels(a), Labels(domain));
  }

  lemma SuffixOfConcat<T>(a: seq<T>, b: seq<T>)
    ensures HasSuffix(a + b, b)
  {
  }

  lemma LabelsMeanSuffix(host: Name, domain: Name)
    requires HasSuffix(Labels(host), Labels(domain))
    ensures Matches(host, domain)
  {
    var hs, ds := Labels(host), Labels(domain);
    JoinLabels(host);
    JoinLabels(domain);
    if |hs| == |ds| {
      assert hs == ds;
    } else {
      var front := hs[..|hs| - |ds|];
      assert hs == front + ds;
      JoinConcat(front, ds);
      SuffixOfConcat(Join(front), [DOT] + domain);
    }
  }

  /** A domain matches exactly when its labels are the last labels of the host name: no label is ever cut. */
  lemma MatchesIffLabels(host: Name, domain: Name)
    ensures Matches(host, domain) <==> HasSuffix(Labels(host), Labels(domain))
  {
    if HasSuffix(host, [DOT] + domain) {
      SuffixMeansLabels(host, domain);
    }
    if HasSuffix(Labels(host), Labels(domain)) {
      LabelsMeanSuffix(host, domain);
    }
  }

  lemma {:induction false} IsAIIffLabels(domains: seq<Name>, host: Name)
    ensures IsAI(domains, host) <==>
              exists i :: 0 <= i < |domains| && HasSuffix(Labels(host), Labels(domains[i]))
  {
    forall i | 0 <= i < |domains|
      ensures Matches(host, domains[i]) <==> HasSuffix(Labels(host), Labels(domains[i]))
    {
      MatchesIffLabels(host, domains[i]);
    }
  }

  /** Matching is closed under prepending labels. */
  lemma {:induction false} SubdomainsMatch(domains: seq<Name>, host: Name, sub: Name)
    requires IsAI(domains, host)
    ensures IsAI(domains, sub + [46] + host)
  {
    var i :| 0 <= i < |domains| && Matches(host, domains[i]);
    var n, d := sub + [DOT] + host, [DOT] + domains[i];
    if host == domains[i] {
      assert n[|sub|..] == d;
    } else {
      assert n[|n| - |d|..] == host[|host| - |d|..];
    }
    assert Matches(n, domains[i]);
  }

  /** Without an empty domain in the list, no empty name matches. */
  lemma AINamesNonEmpty(domains: seq<Name>, host: Name)
    requires [] !in domains && IsAI(domains, host)
    ensures host != []
  {
  }
}
