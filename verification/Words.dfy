/** Byte memory seen through little-endian words, as the CPU the kernel targets stores them. */
module Words {
  import opened Arith

  type Byte = b: int | 0 <= b < 256

  /** 256 to the power n. */
  function Pow256(n: nat): (p: nat)
    ensures p > 0
  {
    if n == 0 then 1 else 256 * Pow256(n - 1)
  }

  /** Value of a little-endian byte string. */
  function LeValue(s: seq<Byte>): (v: nat)
    ensures v < Pow256(|s|)
  {
    if s == [] then 0 else s[0] + 256 * LeValue(s[1..])
  }

  /** The n low bytes of v, least significant first. */
  function LeBytes(v: nat, n: nat): (s: seq<Byte>)
    ensures |s| == n
    decreases n
  {
    if n == 0 then [] else [v % 256] + LeBytes(v / 256, n - 1)
  }

  /** Encoding then decoding returns every value that fits the width. */
  lemma {:induction false} LeRoundTrip(v: nat, n: nat)
    requires v < Pow256(n)
    ensures LeValue(LeBytes(v, n)) == v
    decreases n
  {
    if n > 0 {
      LeRoundTrip(v / 256, n - 1);
      var s := LeBytes(v, n);
      assert s[1..] == LeBytes(v / 256, n - 1);
    }
  }

  lemma Pow256Of8()
    ensures Pow256(4) == 0x1_0000_0000 && Pow256(8) == TWO64
  {
    assert Pow256(4) == 256 * Pow256(3) == 256 * 256 * Pow256(2) == 0x1_0000_0000;
    assert Pow256(8) == 256 * Pow256(7) == 256 * 256 * Pow256(6);
    assert Pow256(6) == 256 * Pow256(5) == 256 * 256 * Pow256(4);
  }

  /** The 64-bit word stored at byte index i. */
  function Load(m: seq<Byte>, i: nat): (v: nat)
    requires i + 8 <= |m|
    ensures v < TWO64
  {
    Pow256Of8();
    LeValue(m[i..i + 8])
  }

  /** m with the 64-bit word at byte index i replaced by v. */
  function Store(m: seq<Byte>, i: nat, v: nat): (r: seq<Byte>)
    requires i + 8 <= |m|
    ensures |r| == |m|
  {
    m[..i] + LeBytes(v, 8) + m[i + 8..]
  }

  lemma LoadStoreSame(m: seq<Byte>, i: nat, v: nat)
    requires i + 8 <= |m| && v < TWO64
    ensures Load(Store(m, i, v), i) == v
  {
    Pow256Of8();
    LeRoundTrip(v, 8);
    hide LeValue, LeBytes, Pow256;
    assert Store(m, i, v)[i..i + 8] == LeBytes(v, 8);
  }

  lemma LoadStoreOther(m: seq<Byte>, i: nat, v: nat, j: nat)
    requires i + 8 <= |m| && j + 8 <= |m|
    requires j + 8 <= i || i + 8 <= j
    ensures Load(Store(m, i, v), j) == Load(m, j)
  {
    hide LeValue, LeBytes, Pow256;
    var s := Store(m, i, v);
    assert forall k :: j <= k < j + 8 ==> s[k] == m[k];
    assert s[j..j + 8] == m[j..j + 8];
  }
}
