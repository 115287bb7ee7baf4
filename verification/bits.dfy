/** Conversion between bytes and bit strings, most-significant bit first.
    A bit string is a `seq<bool>`: `true` is the character '1'. */
module Bits {

  /** An unsigned 8-bit value, as held in a pixel channel or a payload byte. */
  type Byte = x: int | 0 <= x < 256

  function Pow2(k: nat): (r: nat)
    ensures r >= 1
  {
    if k == 0 then 1 else 2 * Pow2(k - 1)
  }

  /** Reference definition: bit `j` of `v`, counting from the least-significant bit. */
  function BitOf(v: nat, j: nat): bool {
    (v / Pow2(j)) % 2 == 1
  }

  lemma DivUnique(v: nat, d: nat, q: nat, s: nat)
    requires d >= 1 && v == d * q + s && s < d
    ensures v / d == q
  {
    var q', s' := v / d, v % d;
    assert v == d * q' + s' && s' < d;
    var k := q' - q;
    assert d * k == s - s' by {
      assert d * q' == d * q + d * k;
    }
  }

  lemma DivTwice(v: nat, p: nat)
    requires p >= 1
    ensures (v / 2) / p == v / (2 * p)
  {
    var h := v / 2;
    var q := h / p;
    var s := h % p;
    assert h == p * q + s;
    assert v == (2 * p) * q + (2 * s + v % 2);
    DivUnique(v, 2 * p, q, 2 * s + v % 2);
  }

  /** Halving `v` shifts every bit one place down. */
  lemma BitOfHalf(v: nat, j: nat)
    ensures BitOf(v / 2, j) == BitOf(v, j + 1)
  {
    DivTwice(v, Pow2(j));
  }

  /** The most-significant bit of a byte is set exactly for values of 128 and above. */
  lemma HighBit(b: Byte)
    ensures BitOf(b, 7) <==> b >= 128
  {
    assert Pow2(7) == 128;
  }

  /** The `w`-character binary numeral of `v` with leading zeros, as `format(v, "0wb")`
      produces for `v < 2^w`. */
  function FixedWidth(v: nat, w: nat): (r: seq<bool>)
    ensures |r| == w
    ensures forall i :: 0 <= i < w ==> r[i] == BitOf(v, w - 1 - i)
  {
    if w == 0 then []
    else
      var high := FixedWidth(v / 2, w - 1);
      forall i | 0 <= i < w - 1
        ensures high[i] == BitOf(v, w - 1 - i)
      {
        BitOfHalf(v, w - 2 - i);
      }
      assert (v / Pow2(0)) % 2 == v % 2;
      high + [v % 2 == 1]
  }

  /** `format(b, "08b")`: exactly eight bits, most-significant first. */
  function ByteBits(b: Byte): (r: seq<bool>)
    ensures |r| == 8
    ensures forall j :: 0 <= j < 8 ==> r[j] == BitOf(b, 7 - j)
  {
    FixedWidth(b, 8)
  }

  /** The bytes branch of `msg_to_bin`: the concatenation of every byte's eight bits. */
  function MsgToBin(msg: seq<Byte>): (r: seq<bool>)
    ensures |r| == 8 * |msg|
    ensures forall i :: 0 <= i < |r| ==> r[i] == BitOf(msg[i / 8], 7 - i % 8)
  {
    if |msg| == 0 then []
    else
      var rest := MsgToBin(msg[1..]);
      var r := ByteBits(msg[0]) + rest;
      forall i | 8 <= i < |r|
        ensures r[i] == BitOf(msg[i / 8], 7 - i % 8)
      {
        assert r[i] == rest[i - 8];
        assert (i - 8) / 8 == i / 8 - 1 && (i - 8) % 8 == i % 8;
      }
      r
  }

  /** `int(s, 2)` on a non-empty string of '0'/'1': the value of the numeral, most-significant
      bit first.  The empty string is given the value 0 (it is never parsed). */
  function BinToNat(bits: seq<bool>): (r: nat)
    ensures r < Pow2(|bits|)
  {
    if |bits| == 0 then 0
    else 2 * BinToNat(bits[..|bits| - 1]) + (if bits[|bits| - 1] then 1 else 0)
  }

  /** Reading back a fixed-width numeral yields the number written. */
  lemma {:induction false} BinToNatFixedWidth(v: nat, w: nat)
    requires v < Pow2(w)
    ensures BinToNat(FixedWidth(v, w)) == v
  {
    if w > 0 {
      var high := FixedWidth(v / 2, w - 1);
      assert FixedWidth(v, w) == high + [v % 2 == 1];
      assert (high + [v % 2 == 1])[..w - 1] == high;
      BinToNatFixedWidth(v / 2, w - 1);
    }
  }

  function Min(a: int, b: int): int {
    if a <= b then a else b
  }

  /** The `k`-th slice of eight bits, or the shorter remainder at the end. */
  function Chunk(bits: seq<bool>, k: nat): (c: seq<bool>)
    requires 8 * k < |bits|
  {
    bits[8 * k .. Min(8 * k + 8, |bits|)]
  }

  lemma ChunkShift(bits: seq<bool>, k: nat)
    requires 1 <= k && 8 * k < |bits|
    ensures Chunk(bits[8..], k - 1) == Chunk(bits, k)
  {
    var hi := Min(8 * k + 8, |bits|);
    assert Min(8 * (k - 1) + 8, |bits| - 8) == hi - 8;
    var c, d := Chunk(bits[8..], k - 1), Chunk(bits, k);
    assert |c| == |d|;
    forall j | 0 <= j < |c|
      ensures c[j] == d[j]
    {
      assert c[j] == bits[8 * k + j];
    }
  }

  /** Chunks `bits` into slices of eight (the last one possibly shorter) and parses each
      chunk as a number, most-significant bit first. */
  function Regroup(bits: seq<bool>): (r: seq<Byte>)
    ensures |r| == (|bits| + 7) / 8
    ensures forall k :: 0 <= k < |r| ==> 8 * k < |bits| && r[k] == BinToNat(Chunk(bits, k))
    decreases |bits|
  {
    if |bits| == 0 then []
    else if |bits| <= 8 then
      assert Pow2(|bits|) <= 256 by { Pow2Monotone(|bits|, 8); }
      assert Chunk(bits, 0) == bits;
      [BinToNat(bits)]
    else
      var rest := Regroup(bits[8..]);
      assert Pow2(8) == 256;
      var r := [BinToNat(bits[..8]) as Byte] + rest;
      assert Chunk(bits, 0) == bits[..8];
      forall k | 1 <= k < |r|
        ensures 8 * k < |bits| && r[k] == BinToNat(Chunk(bits, k))
      {
        assert r[k] == rest[k - 1];
        ChunkShift(bits, k);
      }
      r
  }

  lemma {:induction false} Pow2Monotone(a: nat, b: nat)
    requires a <= b
    ensures Pow2(a) <= Pow2(b)
  {
    if a < b {
      Pow2Monotone(a, b - 1);
    }
  }

  /** A short trailing chunk is parsed as a smaller byte rather than rejected: the last
      output byte is the value of the last `|bits| % 8` bits. */
  lemma ShortChunk(bits: seq<bool>)
    requires |bits| % 8 != 0
    ensures |Regroup(bits)| == |bits| / 8 + 1
    ensures Regroup(bits)[|bits| / 8] == BinToNat(bits[|bits| - |bits| % 8..]) < Pow2(|bits| % 8)
  {
    var n := |bits|;
    var q := n / 8;
    assert 0 < n - 8 * q < 8;
    assert (n + 7) / 8 == q + 1;
    assert Chunk(bits, q) == bits[n - n % 8..];
  }

  /** Regrouping the bit string of a byte sequence gives back the bytes. */
  lemma {:induction false} RegroupMsgToBin(msg: seq<Byte>)
    ensures Regroup(MsgToBin(msg)) == msg
  {
    var bits := MsgToBin(msg);
    var r := Regroup(bits);
    assert |r| == |msg|;
    forall k | 0 <= k < |msg|
      ensures r[k] == msg[k]
    {
      var chunk := Chunk(bits, k);
      assert Min(8 * k + 8, |bits|) == 8 * k + 8;
      assert chunk == ByteBits(msg[k]) by {
        forall j | 0 <= j < 8
          ensures chunk[j] == ByteBits(msg[k])[j]
        {
          assert chunk[j] == bits[8 * k + j];
          assert (8 * k + j) / 8 == k && (8 * k + j) % 8 == j;
        }
      }
      assert Pow2(8) == 256;
      BinToNatFixedWidth(msg[k], 8);
    }
  }
}
