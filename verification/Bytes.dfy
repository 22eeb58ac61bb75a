/** Bytes, little-endian integers and flat byte-addressed memory. */
module Bytes {

  type byte = b: int | 0 <= b < 256

  const WORD: nat := 8

  function Pow256(n: nat): (p: nat)
    ensures p >= 1
  {
    if n == 0 then 1 else 256 * Pow256(n - 1)
  }

  /** The `n` least significant bytes of `v`, least significant first (`to_le_bytes`). */
  function Encode(v: nat, n: nat): (s: seq<byte>)
    ensures |s| == n
  {
    if n == 0 then [] else [v % 256] + Encode(v / 256, n - 1)
  }

  /** The inverse reading (`from_le_bytes`). */
  function Decode(s: seq<byte>): (v: nat)
  {
    if s == [] then 0 else s[0] + 256 * Decode(s[1..])
  }

  lemma {:induction false} DecodeEncode(v: nat, n: nat)
    requires v < Pow256(n)
    ensures Decode(Encode(v, n)) == v
  {
    if n != 0 {
      DecodeEncode(v / 256, n - 1);
      assert Encode(v, n)[1..] == Encode(v / 256, n - 1);
    }
  }

  lemma {:induction false} DecodeZeros(s: seq<byte>)
    requires forall i :: 0 <= i < |s| ==> s[i] == 0
    ensures Decode(s) == 0
  {
    if s != [] { DecodeZeros(s[1..]); }
  }

  /** Overwrites `m` from address `a` on with `bs`; a write that does not fit changes nothing. */
  function Put(m: seq<byte>, a: nat, bs: seq<byte>): (r: seq<byte>)
    ensures |r| == |m|
    ensures a + |bs| <= |m| ==> r[a..a + |bs|] == bs
    ensures forall i :: 0 <= i < |m| && !(a <= i < a + |bs|) ==> r[i] == m[i]
  {
    if a + |bs| <= |m| then m[..a] + bs + m[a + |bs|..] else m
  }

  /** Writing byte by byte. */
  lemma PutCons(m: seq<byte>, a: nat, bs: seq<byte>)
    requires bs != [] && a + |bs| <= |m|
    ensures Put(Put(m, a, [bs[0]]), a + 1, bs[1..]) == Put(m, a, bs)
  {
  }

  /** A `usize` load; outside memory it reads as zero. */
  function Load(m: seq<byte>, a: nat): (v: nat)
  {
    if a + WORD <= |m| then Decode(m[a..a + WORD]) else 0
  }

  function Store(m: seq<byte>, a: nat, v: nat): (r: seq<byte>)
    ensures |r| == |m|
  {
    Put(m, a, Encode(v, WORD))
  }

  lemma LoadStoreSame(m: seq<byte>, a: nat, v: nat)
    requires a + WORD <= |m| && v < Pow256(WORD)
    ensures Load(Store(m, a, v), a) == v
  {
    DecodeEncode(v, WORD);
  }

  /** A load depends only on the eight bytes it covers. */
  lemma LoadAgree(m: seq<byte>, m': seq<byte>, a: nat)
    requires |m| == |m'|
    requires forall i :: a <= i < a + WORD && i < |m| ==> m[i] == m'[i]
    ensures Load(m, a) == Load(m', a)
  {
    if a + WORD <= |m| {
      assert m[a..a + WORD] == m'[a..a + WORD];
    }
  }

  lemma LoadZero(m: seq<byte>, a: nat)
    requires forall i :: a <= i < a + WORD && i < |m| ==> m[i] == 0
    ensures Load(m, a) == 0
  {
    if a + WORD <= |m| { DecodeZeros(m[a..a + WORD]); }
  }
}
