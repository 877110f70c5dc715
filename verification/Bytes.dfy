/** Bytes of integers in memory order, least significant first. */
module Bytes {

  predicate AreBytes(s: seq<int>)
  {
    forall i :: 0 <= i < |s| ==> 0 <= s[i] < 256
  }

  function Pow256(n: nat): (r: nat)
    ensures r >= 1
  {
    if n == 0 then 1 else 256 * Pow256(n - 1)
  }

  /** The `n` bytes of an unsigned integer. */
  function Le(v: nat, n: nat): (s: seq<int>)
    ensures |s| == n && AreBytes(s)
  {
    if n == 0 then [] else [v % 256] + Le(v / 256, n - 1)
  }

  function FromLe(s: seq<int>): (v: int)
    requires AreBytes(s)
    ensures 0 <= v < Pow256(|s|)
  {
    if s == [] then 0 else s[0] + 256 * FromLe(s[1..])
  }

  /** The byte at `i` counts 256^i: the first one is the lowest. */
  lemma {:induction false} ByteWeights(s: seq<int>, i: nat, v: int)
    requires AreBytes(s) && i < |s| && 0 <= v < 256
    ensures FromLe(s[i := v]) - FromLe(s) == (v - s[i]) * Pow256(i)
  {
    if i == 0 {
      assert s[0 := v][1..] == s[1..];
      assert (v - s[0]) * 1 == v - s[0];
    } else {
      assert s[i := v][1..] == s[1..][i - 1 := v];
      ByteWeights(s[1..], i - 1, v);
      TimesByte(v - s[i], Pow256(i - 1));
    }
  }

  lemma TimesByte(d: int, p: int)
    ensures d * (256 * p) == 256 * (d * p)
  {
  }

  lemma {:induction false} FromLeOfLe(v: nat, n: nat)
    requires v < Pow256(n)
    ensures FromLe(Le(v, n)) == v
  {
    if n > 0 {
      FromLeOfLe(v / 256, n - 1);
      assert Le(v, n)[1..] == Le(v / 256, n - 1);
    }
  }

  lemma {:induction false} LeOfFromLe(s: seq<int>)
    requires AreBytes(s)
    ensures Le(FromLe(s), |s|) == s
  {
    if s != [] {
      LeOfFromLe(s[1..]);
      assert FromLe(s) % 256 == s[0] && FromLe(s) / 256 == FromLe(s[1..]);
      assert s == [s[0]] + s[1..];
    }
  }

  const INT32_MODULUS: int := 0x1_0000_0000

  predicate IsInt32(v: int)
  {
    -0x8000_0000 <= v < 0x8000_0000
  }

  /** Two's complement of a 32-bit `int`. */
  function Int32Bits(v: int): (u: nat)
    requires IsInt32(v)
    ensures u < INT32_MODULUS
  {
    if v < 0 then v + INT32_MODULUS else v
  }

  function Int32Of(u: int): (v: int)
    requires 0 <= u < INT32_MODULUS
    ensures IsInt32(v)
  {
    if u >= 0x8000_0000 then u - INT32_MODULUS else u
  }

  lemma Int32Inverse(v: int, u: int)
    requires 0 <= u < INT32_MODULUS
    ensures IsInt32(v) ==> Int32Of(Int32Bits(v)) == v
    ensures Int32Bits(Int32Of(u)) == u
  {
  }

  lemma WordSizes()
    ensures Pow256(1) == 256 && Pow256(4) == INT32_MODULUS && Pow256(8) == INT32_MODULUS * INT32_MODULUS
  {
    assert Pow256(2) == 256 * Pow256(1) == 65536;
    assert Pow256(4) == 256 * Pow256(3) == 65536 * Pow256(2);
    assert Pow256(6) == 256 * Pow256(5) == 65536 * Pow256(4);
    assert Pow256(8) == 256 * Pow256(7) == 65536 * Pow256(6);
  }

  const UINT64_MODULUS: int := INT32_MODULUS * INT32_MODULUS
}
