# Invisible Courier: LSB steganographic codec, modelled in Dafny

This project models the codec at the centre of the Invisible Courier steganography tool. The
codec hides a byte payload in the least-significant bits of a flat buffer of pixel bytes and reads
it back. The payload is the encrypted message, treated here as opaque bytes. The model covers:

- **Bit expansion** (`Bits`): every payload byte becomes eight bits, most-significant first
  (`msg_to_bin`, bytes branch). The reverse direction splits a bit string into chunks of eight and
  parses each one as a binary numeral (`int(chunk, 2)`).
- **Seed** (`Seed`): the shuffle seed is the sum of the password's code points.
- **Carrier** (`Carrier`): reading and writing the low bit of a byte (`b & 1`, `(b & 254) | bit`).
  The embedding loop writes one bit per byte, visiting bytes in permutation order.
- **Embed and extract** (`Stego`): the 16-bit terminator `1111111111111110` is appended after the
  payload bits. The capacity check then requires one carrier byte per bit. After that come seeding
  and the write loop. Extraction reads low bits in the same order and stops at the first point
  where the accumulated bits end with the terminator. It always drops the last 16 bits and
  regroups the rest into bytes.

The shuffled index order is a parameter `perm`. The precondition `IsPermutation(perm, N)` says
it holds N distinct indices in `[0, N)`. Embedding and extraction must receive the same `perm`.
Errors are values of `Outcome.Result`: `CapacityExceeded`, or `SeedOutOfRange` when the
code-point sum is not a seed NumPy's legacy generator accepts (it must be below 2^32; otherwise
`np.random.seed` raises, and the program's `try` turns that into an error).

The main results:

- `Stego.RoundTrip` and `Stego.EmbedThenExtract`: extraction returns exactly the embedded
  payload. This holds when the permutation is valid, the payload plus terminator fits, the seed
  is in range, and the payload's own bits never contain the terminator.
- `Stego.SevenBitPayloadHasNoTerminator`: every payload of bytes below 128 meets that last
  condition. Base64 text, such as a Fernet token, is one example.
- `Stego.EmbedData`: the error cases, both ways round. On success, only the visited bytes change,
  and each changes by at most one.
- `Stego.ReadUntilTerminator`: the loop invariant behind the first-occurrence search.

Two cases of the extraction code (`app.py:66-68`) are not errors. The slice `[:-16]` always
removes 16 bits, whether or not the terminator was found, and gives the empty string when fewer
than 16 bits were read. A trailing chunk shorter than 8 bits becomes a smaller byte. Only the later
decryption step would reject such a result.

## Model

| member | source | states |
|---|---|---|
| Bits.FixedWidth | app.py:23 | the numeral has exactly `w` bits, and bit `i` is bit `w-1-i` of the value (leading zeros, most significant first) |
| Bits.ByteBits | app.py:23 | `format(b, "08b")` gives eight bits, and bit `j` is bit `7-j` of the byte |
| Bits.MsgToBin | app.py:23 | a payload of n bytes gives 8·n bits, and bit i is bit `7 - i%8` of byte `i/8` (MSB first) |
| Bits.BinToNat | app.py:68 | parsing a numeral of k bits gives a value below 2^k |
| Bits.BinToNatFixedWidth | app.py:68 | parsing a value's fixed-width numeral gives back the value |
| Bits.Regroup | app.py:67-68 | the output has ceil(bits/8) bytes, and byte k is the numeral of bits `8k .. min(8k+8, len)` |
| Bits.ShortChunk | app.py:67-68 | a bit count that is not a multiple of 8 gives one extra byte: the value of the short trailing chunk, below 2^(len mod 8) |
| Bits.RegroupMsgToBin | app.py:67-68 | regrouping the bit expansion of a byte sequence gives back the bytes |
| Bits.HighBit | app.py:23 | the first bit written for a byte is set exactly when the byte is at least 128 |
| Seed.PasswordSeed | app.py:39 | the seed is 0 for the empty password and is at most 0x10FFFF per character |
| Seed.ShortPasswordSeedInRange | app.py:39-40 | every password of at most 3855 characters gives a seed below 2^32, so seeding cannot fail |
| Seed.SeedAppend | app.py:39 | the seed of a concatenation is the sum of the two seeds |
| Seed.SeedRemoveAt | app.py:39 | removing one character lowers the seed by exactly its code point |
| Seed.SeedPermutationInvariant | app.py:55 | passwords with the same multiset of characters give the same seed (embed and extract derive it the same way) |
| Carrier.Lsb | app.py:63 | `b & 1` (computed on 8 bits) is bit 0 of the byte |
| Carrier.SetLsb | app.py:46 | the new byte has low bit `bit` (read as `b & 1`), the same upper seven bits, and differs from `b` by at most 1 |
| Carrier.WriteBits | app.py:44-46 | byte `perm[i]` carries `bits[i]` in its low bit with its upper bits kept, every byte not in `perm[..len(bits)]` is unchanged, and no byte moves by more than 1 |
| Carrier.ReadAfterWrite | app.py:60-63 | reading the visited low bits after the write loop gives back exactly the bits written |
| Carrier.ReadBitsPrefix | app.py:60-63 | the bits read in m steps are a prefix of the bits read in n ≥ m steps |
| Stego.PayloadBits | app.py:31 | the written string has 8·n+16 bits, bit i < 8·n is bit `7 - i%8` of byte `i/8`, and it ends with the terminator |
| Stego.EmbedData | app.py:31-46 | capacity error exactly when 8·n+16 exceeds the buffer; seed error exactly when it fits but the seed is out of range; otherwise the result carries the payload bits along `perm`, leaves every other byte as it was, and moves no byte by more than 1 |
| Stego.StopUnique | app.py:61-64 | the extraction loop's stopping point is unique |
| Stego.ReadUntilTerminator | app.py:60-64 | reads at most N bits and stops at the first step where the accumulated bits end with the terminator, or after N steps if that never happens |
| Stego.AbsentTerminatorReadsAll | app.py:61-64 | when no prefix of the walk ends with the terminator, the loop reads every byte of the buffer |
| Stego.StripTerminator | app.py:66 | drops exactly the last 16 bits, or leaves nothing when fewer than 16 were read; the result is a prefix |
| Stego.Decode | app.py:66-68 | at most 16 bits read decode to nothing; otherwise the output has ceil((len-16)/8) bytes, a short trailing chunk included, and byte k is the numeral of bits `8k .. min(8k+8, len-16)`, so the last 16 bits are dropped whether or not they are the terminator |
| Stego.DecodePayloadBits | app.py:31-68 | decoding the payload's bits followed by the terminator gives back the payload |
| Stego.ExtractData | app.py:55-68 | seed error when the seed is out of range; otherwise it decodes the bits read up to the unique stopping point |
| Stego.NoEarlyTerminator | app.py:64 | if the payload's bits never contain the terminator, the written bits end with it and no shorter prefix does |
| Stego.StopAfterEmbed | app.py:60-64 | after such an embedding, extraction stops exactly after the terminator |
| Stego.RoundTrip | app.py:44-68 | if the payload fits, the seed is valid and the payload's bits avoid the terminator, embedding succeeds and decoding at the stopping point returns the payload |
| Stego.EmbedThenExtract | app.py:31-68 | if `perm` is a permutation of the buffer, the payload plus terminator fits, the password's seed is below 2^32, and the payload's bits never contain the terminator, then embedding followed by extraction with the same password and permutation returns `Success(payload)` |
| Stego.ZeroBreaksTerminator | app.py:64 | a zero among a window's first fifteen bits means the terminator does not start there |
| Stego.LeadingBitOfSevenBitByte | app.py:23 | a byte below 128 contributes a leading zero bit |
| Stego.SevenBitPayloadHasNoTerminator | app.py:30-31 | a payload of bytes below 128 never contains the terminator in its bits |

## Left out

- Fernet key generation, encryption and decryption (app.py:28-30, 69): a foreign cryptography library. The payload is an opaque byte sequence. `Decode`'s output is what would be handed to decryption.
- `np.random.shuffle` (app.py:41-42, 57-58): NumPy's generator is not visible. The permutation is the parameter `perm`, with the precondition that it is a permutation of the buffer's indices. Only the seed's accepted range (below 2^32) is modelled from `np.random.seed`.
- PIL conversion, flatten and reshape (app.py:33-35, 48, 53-54): the buffer is already the flat byte sequence.
- `get_psnr` (app.py:14-19): floating-point MSE, square root and logarithm.
- `get_histogram` and the difference heatmap (app.py:72-80, 179-181): plotting and display scaling over floats.
- The Streamlit interface, session state, upload, download and the displayed capacity estimate (app.py:86-183).
- The error-string convention of the `try`/`except` blocks (app.py:49, 70): errors are `Result` values.
- The `str` branch and the fall-through branch of `msg_to_bin` (app.py:22, 24): the codec only passes bytes.
