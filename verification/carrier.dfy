/** The least-significant-bit channel of a flat pixel-byte buffer, visited in the order
    given by a permutation of its indices. */
module Carrier {
  import opened Bits

  /** Every entry of `perm` is an index of an `n`-byte buffer. */
  predicate InBounds(perm: seq<nat>, n: nat) {
    forall i :: 0 <= i < |perm| ==> perm[i] < n
  }

  /** No index occurs twice in `perm`. */
  predicate Distinct(perm: seq<nat>) {
    forall i, j :: 0 <= i < j < |perm| ==> perm[i] != perm[j]
  }

  /** `perm` lists every index of an `n`-byte buffer exactly once: `n` distinct indices
      in [0, n), as the shuffled `arange(n)` does. */
  predicate IsPermutation(perm: seq<nat>, n: nat) {
    |perm| == n && InBounds(perm, n) && Distinct(perm)
  }

  /** `b & 1`, read as a bit. */
  function Lsb(b: Byte): (r: bool)
    ensures r <==> BitOf(b, 0)
    ensures r <==> ((b as bv8) & 1) == 1
  {
    b % 2 == 1
  }

  /** `(b & 254) | bit`: masking with 254 clears bit zero, and or-ing in `bit` sets it.
      The upper seven bits are untouched, so the value moves by at most one. */
  function SetLsb(b: Byte, bit: bool): (r: Byte)
    ensures Lsb(r) == bit
    ensures r / 2 == b / 2
    ensures -1 <= r as int - b as int <= 1
  {
    b - b % 2 + (if bit then 1 else 0)
  }

  /** `stego` is `cover` with `bits[i]` in the low bit of byte `perm[i]` for every
      `i < |bits|`, the upper seven bits of those bytes kept, and every byte that
      `perm[..|bits|]` does not name left as it was. */
  predicate Carries(cover: seq<Byte>, stego: seq<Byte>, bits: seq<bool>, perm: seq<nat>)
    requires |bits| <= |perm| && InBounds(perm, |cover|)
  {
    && |stego| == |cover|
    && (forall i :: 0 <= i < |bits| ==>
          Lsb(stego[perm[i]]) == bits[i] && stego[perm[i]] / 2 == cover[perm[i]] / 2)
    && (forall p :: 0 <= p < |cover| && p !in perm[..|bits|] ==> stego[p] == cover[p])
  }

  /** The embedding loop: for `i` from 0 to `|bits| - 1`, overwrite the low bit of byte
      `perm[i]` with `bits[i]`. */
  function WriteBits(buf: seq<Byte>, bits: seq<bool>, perm: seq<nat>): (r: seq<Byte>)
    requires |bits| <= |perm| && InBounds(perm, |buf|) && Distinct(perm)
    ensures Carries(buf, r, bits, perm)
    ensures forall p :: 0 <= p < |buf| ==> -1 <= r[p] as int - buf[p] as int <= 1
    decreases |bits|
  {
    if |bits| == 0 then buf
    else
      var n := |bits| - 1;
      var prev := WriteBits(buf, bits[..n], perm);
      var idx := perm[n];
      assert idx !in perm[..n];
      var r := prev[idx := SetLsb(prev[idx], bits[n])];
      assert forall i :: 0 <= i < n ==> perm[i] != idx;
      r
  }

  /** The low bits of the first `n` bytes visited, in visiting order: the accumulated
      bit string of the extraction loop after `n` steps. */
  function ReadBits(buf: seq<Byte>, perm: seq<nat>, n: nat): (r: seq<bool>)
    requires n <= |perm| && InBounds(perm, |buf|)
    ensures |r| == n
  {
    seq(n, i requires 0 <= i < n => Lsb(buf[perm[i]]))
  }

  /** Reading back the visited bytes of an embedding yields exactly the bits written. */
  lemma ReadAfterWrite(buf: seq<Byte>, bits: seq<bool>, perm: seq<nat>)
    requires |bits| <= |perm| && InBounds(perm, |buf|) && Distinct(perm)
    ensures ReadBits(WriteBits(buf, bits, perm), perm, |bits|) == bits
  {
  }

  /** Reading fewer steps yields a prefix of the longer read. */
  lemma ReadBitsPrefix(buf: seq<Byte>, perm: seq<nat>, m: nat, n: nat)
    requires m <= n <= |perm| && InBounds(perm, |buf|)
    ensures ReadBits(buf, perm, m) == ReadBits(buf, perm, n)[..m]
  {
  }
}
