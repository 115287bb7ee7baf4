/** Embedding a byte payload into the low bits of a pixel-byte buffer, and reading it back. */
module Stego {
  import opened Bits
  import opened Seed
  import opened Carrier
  import opened Outcome

  /** The fixed end marker appended to the payload bits: fifteen ones and a zero. */
  const Terminator: seq<bool> :=
    [true, true, true, true, true, true, true, true,
     true, true, true, true, true, true, true, false]

  /** The bit string that is written: the payload's bits followed by the terminator. */
  function PayloadBits(payload: seq<Byte>): (r: seq<bool>)
    ensures |r| == 8 * |payload| + 16
    ensures forall i :: 0 <= i < 8 * |payload| ==> r[i] == BitOf(payload[i / 8], 7 - i % 8)
    ensures EndsWithTerminator(r)
  {
    MsgToBin(payload) + Terminator
  }

  /** The accumulated bits end with the terminator. */
  predicate EndsWithTerminator(bits: seq<bool>) {
    |bits| >= 16 && bits[|bits| - 16..] == Terminator
  }

  /** The terminator occurs in `bits` starting at position `i`. */
  predicate TerminatorAt(bits: seq<bool>, i: nat) {
    i + 16 <= |bits| && bits[i..i + 16] == Terminator
  }

  /** The terminator does not occur anywhere inside `bits`. */
  predicate NoTerminatorIn(bits: seq<bool>) {
    forall i :: 0 <= i < |bits| ==> !TerminatorAt(bits, i)
  }

  /** The payload and its terminator fit: one carrier byte per bit. */
  predicate Fits(cover: seq<Byte>, payload: seq<Byte>) {
    8 * |payload| + 16 <= |cover|
  }

  /** The embedding routine on the flat buffer.  The capacity check comes first, then
      seeding the generator with the password's code-point sum, then the write loop
      along `perm`, the shuffled index order that seed produces. */
  function EmbedData(cover: seq<Byte>, payload: seq<Byte>, password: string, perm: seq<nat>)
    : (r: Result<seq<Byte>>)
    requires IsPermutation(perm, |cover|)
    ensures r == Failure(CapacityExceeded) <==> !Fits(cover, payload)
    ensures r == Failure(SeedOutOfRange)
        <==> Fits(cover, payload) && !SeedInRange(PasswordSeed(password))
    ensures r.Success? ==> Carries(cover, r.value, PayloadBits(payload), perm)
    ensures r.Success? ==> forall p :: 0 <= p < |cover| ==> -1 <= r.value[p] as int - cover[p] as int <= 1
  {
    var bits := PayloadBits(payload);
    if |bits| > |cover| then Failure(CapacityExceeded)
    else if !SeedInRange(PasswordSeed(password)) then Failure(SeedOutOfRange)
    else Success(WriteBits(cover, bits, perm))
  }

  /** `n` is where the extraction loop stops: the first step after which the accumulated
      bits end with the terminator, or the buffer length if that never happens. */
  ghost predicate IsStop(buf: seq<Byte>, perm: seq<nat>, n: nat)
    requires InBounds(perm, |buf|)
  {
    && n <= |perm|
    && (n < |perm| ==> EndsWithTerminator(ReadBits(buf, perm, n)))
    && (forall m :: 0 < m < n ==> !EndsWithTerminator(ReadBits(buf, perm, m)))
  }

  /** The loop stops at one place only. */
  lemma StopUnique(buf: seq<Byte>, perm: seq<nat>, n1: nat, n2: nat)
    requires InBounds(perm, |buf|)
    requires IsStop(buf, perm, n1) && IsStop(buf, perm, n2)
    ensures n1 == n2
  {
  }

  /** The extraction loop: read one low bit per visited byte and stop as soon as the
      accumulated bits end with the terminator.  Returns the accumulated bits. */
  method ReadUntilTerminator(buf: seq<Byte>, perm: seq<nat>) returns (bits: seq<bool>)
    requires InBounds(perm, |buf|)
    ensures |bits| <= |perm|
    ensures IsStop(buf, perm, |bits|)
    ensures bits == ReadBits(buf, perm, |bits|)
  {
    bits := [];
    var i := 0;
    while i < |perm|
      invariant i <= |perm| && |bits| == i
      invariant bits == ReadBits(buf, perm, i)
      invariant forall m :: 0 < m <= i ==> !EndsWithTerminator(ReadBits(buf, perm, m))
    {
      bits := bits + [Lsb(buf[perm[i]])];
      i := i + 1;
      assert bits == ReadBits(buf, perm, i);
      if EndsWithTerminator(bits) {
        return;
      }
    }
  }

  /** Without a terminator anywhere along the walk, the loop reads one bit from every
      byte of the buffer. */
  lemma {:induction false} AbsentTerminatorReadsAll(buf: seq<Byte>, perm: seq<nat>, n: nat)
    requires InBounds(perm, |buf|)
    requires forall m :: 0 < m <= |perm| ==> !EndsWithTerminator(ReadBits(buf, perm, m))
    ensures IsStop(buf, perm, n) <==> n == |perm|
  {
    assert IsStop(buf, perm, |perm|);
    if IsStop(buf, perm, n) {
      StopUnique(buf, perm, n, |perm|);
    }
  }

  /** Drops the last sixteen bits, as the slice `[:-16]` does; fewer than sixteen bits
      leave nothing. */
  function StripTerminator(bits: seq<bool>): (r: seq<bool>)
    ensures |bits| >= 16 ==> |r| == |bits| - 16
    ensures |bits| < 16 ==> r == []
    ensures r <= bits
  {
    if |bits| >= 16 then bits[..|bits| - 16] else []
  }

  /** A chunk of the stripped bits is the same slice of the accumulated bits. */
  lemma StrippedChunk(bits: seq<bool>, k: nat)
    requires 8 * k < |StripTerminator(bits)|
    ensures 8 * k < |bits| - 16
    ensures Chunk(StripTerminator(bits), k) == bits[8 * k .. Min(8 * k + 8, |bits| - 16)]
  {
  }

  /** Turns the accumulated bits into payload bytes: strip the terminator, then parse
      each chunk of eight (the last possibly shorter). */
  function Decode(bits: seq<bool>): (r: seq<Byte>)
    ensures |bits| <= 16 ==> r == []
    ensures |r| == if |bits| <= 16 then 0 else (|bits| - 9) / 8
    ensures forall k :: 0 <= k < |r| ==>
      8 * k < |bits| - 16 && r[k] == BinToNat(bits[8 * k .. Min(8 * k + 8, |bits| - 16)])
  {
    var s := StripTerminator(bits);
    var r := Regroup(s);
    forall k | 0 <= k < |r|
      ensures 8 * k < |bits| - 16 && r[k] == BinToNat(bits[8 * k .. Min(8 * k + 8, |bits| - 16)])
    {
      StrippedChunk(bits, k);
    }
    r
  }

  /** Decoding the written bit string gives back the payload: stripping removes exactly
      the terminator, and regrouping inverts the bit expansion. */
  lemma {:induction false} DecodePayloadBits(payload: seq<Byte>)
    ensures Decode(PayloadBits(payload)) == payload
  {
    assert StripTerminator(PayloadBits(payload)) == MsgToBin(payload);
    RegroupMsgToBin(payload);
  }

  /** The extraction routine on the flat buffer: seed the generator, walk `perm` until
      the terminator, and decode what was read. */
  method ExtractData(stego: seq<Byte>, password: string, perm: seq<nat>)
    returns (r: Result<seq<Byte>>)
    requires IsPermutation(perm, |stego|)
    ensures !SeedInRange(PasswordSeed(password)) ==> r == Failure(SeedOutOfRange)
    ensures SeedInRange(PasswordSeed(password)) ==>
      exists n :: IsStop(stego, perm, n) && r == Success(Decode(ReadBits(stego, perm, n)))
  {
    if !SeedInRange(PasswordSeed(password)) {
      return Failure(SeedOutOfRange);
    }
    var bits := ReadUntilTerminator(stego, perm);
    r := Success(Decode(bits));
  }

  /** When the payload's own bits never contain the terminator, the written bit string
      ends with the terminator at its full length and at no shorter prefix: inside the
      appended terminator every window ends in a one. */
  lemma {:induction false} NoEarlyTerminator(payload: seq<Byte>)
    requires NoTerminatorIn(MsgToBin(payload))
    ensures EndsWithTerminator(PayloadBits(payload))
    ensures forall m :: 0 < m < |PayloadBits(payload)| ==> !EndsWithTerminator(PayloadBits(payload)[..m])
  {
    var bits, body := PayloadBits(payload), MsgToBin(payload);
    var len := |body|;
    forall m | 0 < m < |bits|
      ensures !EndsWithTerminator(bits[..m])
    {
      if 16 <= m <= len {
        assert bits[..m][m - 16..] == body[m - 16..m];
        assert !TerminatorAt(body, m - 16);
      } else if len < m {
        assert bits[..m][m - 1] == Terminator[m - 1 - len] == true;
        assert Terminator[15] == false;
      }
    }
  }

  /** After an embedding whose payload bits never contain the terminator, extraction
      along the same permutation stops exactly after the terminator. */
  lemma {:induction false} StopAfterEmbed(cover: seq<Byte>, payload: seq<Byte>, perm: seq<nat>, n: nat)
    requires IsPermutation(perm, |cover|) && Fits(cover, payload)
    requires NoTerminatorIn(MsgToBin(payload))
    ensures IsStop(WriteBits(cover, PayloadBits(payload), perm), perm, n)
        <==> n == |PayloadBits(payload)|
  {
    var bits := PayloadBits(payload);
    var stego := WriteBits(cover, bits, perm);
    ReadAfterWrite(cover, bits, perm);
    NoEarlyTerminator(payload);
    forall m | 0 < m < |bits|
      ensures !EndsWithTerminator(ReadBits(stego, perm, m))
    {
      ReadBitsPrefix(stego, perm, m, |bits|);
    }
    assert IsStop(stego, perm, |bits|);
    if IsStop(stego, perm, n) {
      StopUnique(stego, perm, n, |bits|);
    }
  }

  /** Round trip: extracting along the same permutation returns exactly the embedded
      payload, provided the payload fits, the seed is accepted, and the payload's bits
      never contain the terminator. */
  lemma RoundTrip(cover: seq<Byte>, payload: seq<Byte>, password: string, perm: seq<nat>)
    requires IsPermutation(perm, |cover|) && Fits(cover, payload)
    requires SeedInRange(PasswordSeed(password))
    requires NoTerminatorIn(MsgToBin(payload))
    ensures EmbedData(cover, payload, password, perm).Success?
    ensures var stego := EmbedData(cover, payload, password, perm).value;
      forall n :: IsStop(stego, perm, n) ==> Decode(ReadBits(stego, perm, n)) == payload
  {
    var bits := PayloadBits(payload);
    var stego := EmbedData(cover, payload, password, perm).value;
    assert stego == WriteBits(cover, bits, perm);
    forall n | IsStop(stego, perm, n)
      ensures Decode(ReadBits(stego, perm, n)) == payload
    {
      StopAfterEmbed(cover, payload, perm, n);
      ReadAfterWrite(cover, bits, perm);
      DecodePayloadBits(payload);
    }
  }

  /** Embedding and then extracting with the same password and permutation. */
  method EmbedThenExtract(cover: seq<Byte>, payload: seq<Byte>, password: string, perm: seq<nat>)
    returns (r: Result<seq<Byte>>)
    requires IsPermutation(perm, |cover|) && Fits(cover, payload)
    requires SeedInRange(PasswordSeed(password))
    requires NoTerminatorIn(MsgToBin(payload))
    ensures r == Success(payload)
  {
    RoundTrip(cover, payload, password, perm);
    var stego := EmbedData(cover, payload, password, perm).value;
    r := ExtractData(stego, password, perm);
  }

  /** A zero among the first fifteen bits of a window rules out the terminator there. */
  lemma ZeroBreaksTerminator(bits: seq<bool>, i: nat, p: nat)
    requires i <= p < i + 15 && p < |bits| && !bits[p]
    ensures !TerminatorAt(bits, i)
  {
    if i + 16 <= |bits| {
      assert bits[i..i + 16][p - i] != Terminator[p - i];
    }
  }

  /** The bit written first for a byte below 128 is a zero. */
  lemma LeadingBitOfSevenBitByte(payload: seq<Byte>, k: nat)
    requires k < |payload| && payload[k] < 128
    ensures !MsgToBin(payload)[8 * k]
  {
    var bits := MsgToBin(payload);
    assert (8 * k) / 8 == k && (8 * k) % 8 == 0;
    assert bits[8 * k] == BitOf(payload[k], 7);
    HighBit(payload[k]);
  }

  /** Payloads of seven-bit bytes (base64 text, such as a Fernet token) never contain the
      terminator: every window of fifteen bits covers the leading zero bit of some byte. */
  lemma SevenBitPayloadHasNoTerminator(payload: seq<Byte>)
    requires forall k :: 0 <= k < |payload| ==> payload[k] < 128
    ensures NoTerminatorIn(MsgToBin(payload))
  {
    var bits := MsgToBin(payload);
    forall i | 0 <= i < |bits|
      ensures !TerminatorAt(bits, i)
    {
      if i + 16 <= |bits| {
        var k := (i + 7) / 8;
        LeadingBitOfSevenBitByte(payload, k);
        ZeroBreaksTerminator(bits, i, 8 * k);
      }
    }
  }
}
