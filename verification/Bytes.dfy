/** Bytes, fixed-width integers and their two memory representations. */
module Bytes {

  type byte = b: int | 0 <= b < 0x100
  type uint16 = n: int | 0 <= n < 0x1_0000
  type uint32 = n: int | 0 <= n < 0x1_0000_0000
  type uint64 = n: int | 0 <= n < 0x1_0000_0000_0000_0000

  datatype Option<+T> = None | Some(value: T)

  /** The byte order of the machine the agent runs on. */
  datatype Endian = Little | Big

  function Pow256(w: nat): (p: nat)
    ensures p > 0
  {
    if w == 0 then 1 else 256 * Pow256(w - 1)
  }

  /** The number that the bytes `b` hold when read in byte order `e`. */
  function Get(e: Endian, b: seq<byte>): (n: nat)
    ensures n < Pow256(|b|)
  {
    if b == [] then 0
    else match e
      case Little => b[0] + 256 * Get(e, b[1..])
      case Big => 256 * Get(e, b[..|b| - 1]) + b[|b| - 1]
  }

  /** The low `w` bytes of `n`, laid out in byte order `e`. */
  function Put(e: Endian, n: nat, w: nat): (b: seq<byte>)
    ensures |b| == w
  {
    if w == 0 then []
    else match e
      case Little => [n % 256] + Put(e, n / 256, w - 1)
      case Big => Put(e, n / 256, w - 1) + [n % 256]
  }

  lemma {:induction false} PutGet(e: Endian, b: seq<byte>)
    ensures Put(e, Get(e, b), |b|) == b
  {
    if b == [] {
    } else {
      var n := |b| - 1;
      match e
      case Little =>
        PutGet(e, b[1..]);
        LowByte(b[0], Get(e, b[1..]));
        assert b == [b[0]] + b[1..];
      case Big =>
        PutGet(e, b[..n]);
        LowByte(b[n], Get(e, b[..n]));
        assert b == b[..n] + [b[n]];
    }
  }

  lemma LowByte(low: byte, high: nat)
    ensures (low + 256 * high) % 256 == low && (low + 256 * high) / 256 == high
  {
  }

  lemma {:induction false} GetPut(e: Endian, n: nat, w: nat)
    requires n < Pow256(w)
    ensures Get(e, Put(e, n, w)) == n
  {
    if w == 0 {
    } else {
      GetPut(e, n / 256, w - 1);
      match e
      case Little => assert Put(e, n, w)[1..] == Put(e, n / 256, w - 1);
      case Big => assert Put(e, n, w)[..w - 1] == Put(e, n / 256, w - 1);
    }
  }

  function Get16(e: Endian, b: seq<byte>): uint16
    requires |b| == 2
  {
    assert Pow256(2) == 0x1_0000;
    Get(e, b)
  }

  function Get32(e: Endian, b: seq<byte>): uint32
    requires |b| == 4
  {
    assert Pow256(2) == 0x1_0000;
    assert Pow256(4) == 256 * (256 * Pow256(2));
    Get(e, b)
  }

  function Get64(e: Endian, b: seq<byte>): uint64
    requires |b| == 8
  {
    Pow256Of8();
    Get(e, b)
  }

  lemma Pow256Of8()
    ensures Pow256(2) == 0x1_0000
    ensures Pow256(4) == 0x1_0000_0000
    ensures Pow256(8) == 0x1_0000_0000_0000_0000
  {
    assert Pow256(2) == 0x1_0000;
    assert Pow256(4) == 256 * (256 * Pow256(2));
    assert Pow256(6) == 256 * (256 * Pow256(4));
    assert Pow256(8) == 256 * (256 * Pow256(6));
  }

  lemma GetPut16(e: Endian, n: uint16)
    ensures Get16(e, Put(e, n, 2)) == n
  {
    Pow256Of8();
    GetPut(e, n, 2);
  }

  lemma GetPut32(e: Endian, n: uint32)
    ensures Get32(e, Put(e, n, 4)) == n
  {
    Pow256Of8();
    GetPut(e, n, 4);
  }

  lemma GetPut64(e: Endian, n: uint64)
    ensures Get64(e, Put(e, n, 8)) == n
  {
    Pow256Of8();
    GetPut(e, n, 8);
  }

  /** The 16-bit big-endian field at offset `i`. */
  function Be16(b: seq<byte>, i: nat): (n: uint16)
    requires i + 2 <= |b|
  {
    256 * (b[i] as int) + b[i + 1]
  }

  /** Be16 is what a big-endian read of the two bytes gives. */
  lemma Be16IsGet(b: seq<byte>, i: nat)
    requires i + 2 <= |b|
    ensures Be16(b, i) == Get16(Big, b[i..i + 2])
  {
    var f := b[i..i + 2];
    assert f[..1][..0] == [];
    assert Get(Big, f[..1]) == f[0];
  }

  /** The two-byte length prefix used by the TLS presentation language. */
  function Len16(n: uint16): (b: seq<byte>)
    ensures |b| == 2 && Be16(b, 0) == n
  {
    [n / 256, n % 256]
  }

  /** Whether `needle` occurs in `hay` at position `i`. */
  predicate OccursAt(hay: seq<byte>, needle: seq<byte>, i: nat) {
    i + |needle| <= |hay| && hay[i..i + |needle|] == needle
  }

  /** The first occurrence of `needle` in `hay` at or after `from`. */
  function IndexFrom(hay: seq<byte>, needle: seq<byte>, from: nat): (r: Option<nat>)
    requires from <= |hay|
    ensures r.Some? ==> from <= r.value && OccursAt(hay, needle, r.value)
    ensures r.Some? ==> forall i :: from <= i < r.value ==> !OccursAt(hay, needle, i)
    ensures r.None? ==> forall i :: from <= i ==> !OccursAt(hay, needle, i)
    decreases |hay| - from
  {
    if OccursAt(hay, needle, from) then Some(from)
    else if from == |hay| then None
    else IndexFrom(hay, needle, from + 1)
  }

  function Index(hay: seq<byte>, needle: seq<byte>): (r: Option<nat>)
    ensures r.Some? ==> OccursAt(hay, needle, r.value)
    ensures r.Some? ==> forall i: nat :: i < r.value ==> !OccursAt(hay, needle, i)
    ensures r.None? ==> forall i: nat :: !OccursAt(hay, needle, i)
  {
    IndexFrom(hay, needle, 0)
  }
}
