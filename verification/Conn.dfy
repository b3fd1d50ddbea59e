/** A client connection: the bytes it delivers, cut into arbitrary reads. */
module Conn {
  import opened Bytes

  /** What the connection offers to a reader at one moment: bytes, an error, or both.
      Reads of a smaller size take the bytes piece by piece. */
  datatype Arrival = Arrival(data: seq<byte>, err: bool)

  /** A read never returns without a byte or an error. */
  predicate Live(plan: seq<Arrival>) {
    forall i :: 0 <= i < |plan| ==> plan[i].data != [] || plan[i].err
  }

  /** Every byte the client sent. */
  function Flatten(plan: seq<Arrival>): seq<byte> {
    if plan == [] then [] else plan[0].data + Flatten(plan[1..])
  }

  /** The bytes that come before, or together with, the first error. */
  function Clean(plan: seq<Arrival>): seq<byte> {
    if plan == [] then []
    else if plan[0].err then plan[0].data
    else plan[0].data + Clean(plan[1..])
  }

  datatype ReadResult = ReadResult(data: seq<byte>, err: bool, rest: seq<Arrival>)

  /** One Read into a buffer of `max` bytes; past the last arrival the stream is at its end. */
  function ReadOnce(plan: seq<Arrival>, max: nat): ReadResult
    requires max > 0
  {
    if plan == [] then ReadResult([], true, [])
    else if |plan[0].data| <= max then ReadResult(plan[0].data, plan[0].err, plan[1..])
    else ReadResult(plan[0].data[..max], false, [Arrival(plan[0].data[max..], plan[0].err)] + plan[1..])
  }

  lemma {:induction false} CleanIsPrefix(plan: seq<Arrival>)
    ensures Clean(plan) <= Flatten(plan)
  {
    if plan == [] || plan[0].err {
    } else {
      CleanIsPrefix(plan[1..]);
    }
  }

  /** A read takes bytes off the front and nothing else. */
  lemma ReadConserves(plan: seq<Arrival>, max: nat)
    requires max > 0 && Live(plan)
    ensures var r := ReadOnce(plan, max);
            && Live(r.rest) && |r.data| <= max && (r.data != [] || r.err)
            && Flatten(plan) == r.data + Flatten(r.rest)
            && Clean(plan) == if r.err then r.data else r.data + Clean(r.rest)
  {
    if plan != [] && |plan[0].data| > max {
      var d := plan[0].data;
      var rest := ReadOnce(plan, max).rest;
      assert rest[1..] == plan[1..];
      assert d == d[..max] + d[max..];
      assert d[..max] + (d[max..] + Flatten(plan[1..])) == d + Flatten(plan[1..]);
      assert d[..max] + (d[max..] + Clean(plan[1..])) == d + Clean(plan[1..]);
    }
  }

  /** Reads until `n` bytes are there; an error that comes with the last of them is dropped. */
  function ReadExactly(plan: seq<Arrival>, n: nat): ReadResult
    requires Live(plan)
    decreases n
  {
    if n == 0 then ReadResult([], false, plan)
    else
      ReadConserves(plan, n);
      var r := ReadOnce(plan, n);
      if r.err then ReadResult(r.data, |r.data| < n, r.rest)
      else Prepend(r.data, ReadExactly(r.rest, n - |r.data|))
  }

  function Prepend(data: seq<byte>, r: ReadResult): ReadResult {
    ReadResult(data + r.data, r.err, r.rest)
  }

  lemma ConcatAssociative(a: seq<byte>, b: seq<byte>, c: seq<byte>)
    ensures a + (b + c) == (a + b) + c
  {
  }

  /** An exact read succeeds exactly when `n` bytes come before or with the first error, and then
      returns the first `n` bytes of the stream: how the bytes are cut makes no difference. */
  lemma {:induction false} ExactReadIgnoresCuts(plan: seq<Arrival>, n: nat)
    requires Live(plan)
    ensures var r := ReadExactly(plan, n);
            && Live(r.rest)
            && Flatten(plan) == r.data + Flatten(r.rest)
            && (r.err <==> |Clean(plan)| < n)
            && (!r.err ==> |r.data| == n && |Clean(plan)| <= n + |Clean(r.rest)|)
    decreases n
  {
    if n == 0 {
    } else {
      ReadConserves(plan, n);
      var r := ReadOnce(plan, n);
      if !r.err {
        ExactReadIgnoresCuts(r.rest, n - |r.data|);
        var q := ReadExactly(r.rest, n - |r.data|);
        ConcatAssociative(r.data, q.data, Flatten(q.rest));
      }
    }
  }

  /** One read of the loop that gathers an exact read, after `data` has been gathered. */
  lemma ExactStep(plan: seq<Arrival>, n: nat, data: seq<byte>)
    requires Live(plan) && n > 0
    ensures var r := ReadOnce(plan, n);
            && Live(r.rest) && |r.data| <= n && (r.data != [] || r.err)
            && Prepend(data, ReadExactly(plan, n)) ==
                 if r.err then ReadResult(data + r.data, |r.data| < n, r.rest)
                 else Prepend(data + r.data, ReadExactly(r.rest, n - |r.data|))
  {
    ReadConserves(plan, n);
    var r := ReadOnce(plan, n);
    if !r.err {
      var q := ReadExactly(r.rest, n - |r.data|);
      ConcatAssociative(data, r.data, q.data);
    }
  }

  class Connection {
    var plan: seq<Arrival>

    constructor (plan: seq<Arrival>)
      ensures this.plan == plan
    {
      this.plan := plan;
    }

    method Read(max: nat) returns (data: seq<byte>, err: bool)
      requires max > 0
      modifies this
      ensures ReadResult(data, err, plan) == ReadOnce(old(plan), max)
    {
      var r := ReadOnce(plan, max);
      data, err, plan := r.data, r.err, r.rest;
    }

    method ReadFull(n: nat) returns (data: seq<byte>, err: bool)
      requires Live(plan)
      modifies this
      ensures ReadResult(data, err, plan) == ReadExactly(old(plan), n)
    {
      data, err := [], false;
      ghost var goal := ReadExactly(plan, n);
      while |data| < n && !err
        invariant Live(plan) && |data| <= n
        invariant goal == if err then ReadResult(data, |data| < n, plan)
                          else Prepend(data, ReadExactly(plan, n - |data|))
        decreases n - |data|, if err then 0 else 1
      {
        ExactStep(plan, n - |data|, data);
        var piece;
        piece, err := Read(n - |data|);
        data := data + piece;
      }
      if |data| >= n {
        err := false;
      }
    }
  }
}
