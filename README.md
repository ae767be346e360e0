# varint: a verified model of the unsigned varint codec

This project models the core of `src/varint.c`:

- the big-endian parse in `main`, which turns an 8-byte buffer into a
  `uint64_t` by adding `buffer[i] << (pos * 8)` from the last byte down;
- `encode`, which cuts a `uint64_t` into 7-bit chunks, least significant
  first, sets the continuation bit 0x80 on every chunk but the last
  (unsigned LEB128, as in section 7.6 of the DWARF Version 4 standard), keeps
  them in a 10-byte array, and packs them into one `__uint128_t` with the
  first chunk in the most significant occupied byte;
- `decode`, which peels that packed value apart 8 bits at a time, keeps the
  low 7 bits of each byte in a 10-byte array, and puts them back together
  with 7-bit shifts in a `uint64_t`;
- the round trip `main` asserts: `decode(encode(n)) == n`.

`arith.dfy` (module `Arith`) states the C integer types as bounded natural
numbers: `Byte`, `U64`, `U128`, shifts as multiplication or division by
powers of two, masks as remainders, and wrap-around as an explicit
`% 2^64`. Where the C code adds into a `uint64_t` or `__uint128_t` and the
model assigns the exact sum to a `U64` or `U128` variable, the verifier
proves that the C addition cannot wrap there.

`varint.dfy` (module `Varint`) holds the code. Each loop of the C code is a
method with its loop and invariants, over an `array<Byte>` where the C code
uses `byte_seq[10]`. Each method is proved against a pure function:
`BigEndian` (the value of a digit sequence, most significant first),
`Chunks` (the LEB128 bytes of a value, in the order `encode` stores them) and
`Unpack` (the 7-bit payloads `decode` stores). The lemmas say what those
functions mean: bounds, framing, payload positions, inverses and the round
trip.

Behaviour of the code that the model keeps as it is:

- `encode(0)` is 0: the chunk loop never runs and no byte is stored. The
  round trip still holds for 0, because `decode(0)` is 0.
- The code has no error results. A short read is not detected, and `decode`
  of a value at or above 2^80 would write past `byte_seq[10]`. The model
  states these limits as preconditions (`|buffer| == 8`, `src < 2^80`).
- The first stored chunk, the least significant one, lands in the most
  significant occupied byte of the packed value. So reading the packed bytes
  from high to low gives the LEB128 wire order (150 packs as 0x9601).
  `decode` relies on exactly that order.

## Model

| member | source | states |
|---|---|---|
| `Varint.ParseBigEndian` | src/varint.c:62-71 | the 8-byte loop yields the big-endian value of the buffer (last byte least significant), and the `uint64_t` accumulator and every shifted byte stay below 2^64, so nothing wraps |
| `Varint.ParseRecoversBytes` | src/varint.c:62-71 | the parse is injective: the 8 big-endian bytes of the parsed value are the buffer itself |
| `Varint.ParseOfBytes` | src/varint.c:62-71 | every value below 256^k is the parse of its own k big-endian bytes, so every `uint64_t` can come out of the parse |
| `Varint.BigEndianBound` | src/varint.c:69-71 | digits below the base give a value below base^length: 8 bytes fit a `uint64_t`, 10 bytes stay below 2^80 |
| `Varint.ParseExamples` | src/varint.c:55-71 | bytes `00 .. 00 96` parse to 150 and `00 .. 01 00` to 256 |
| `Varint.StoreChunks` | src/varint.c:134-152 | the chunk loop writes exactly the LEB128 chunks of `src` into `byte_seq[0..count)`, in extraction order, and leaves every entry from `count` on untouched, so it never writes past index 9 |
| `Varint.ChunksLength` | src/varint.c:138-152 | zero has no chunks, a nonzero value has as many chunks as it has 7-bit groups: 128^(len-1) <= v < 128^len |
| `Varint.ChunksAtMostTen` | src/varint.c:134-135 | a 64-bit value needs at most 10 chunks, and a nonzero one at least 1 |
| `Varint.ChunksPayload` | src/varint.c:140-143 | the low 7 bits of chunk k are bits 7k..7k+6 of the input, `(src >> 7k) & 0x7F` |
| `Varint.ChunksFraming` | src/varint.c:145-148 | every chunk but the last has the continuation bit set; the last has it clear and is not zero |
| `Varint.PackChunks` | src/varint.c:154-162 | the packing loop yields the big-endian value of the stored chunks, first chunk most significant, and no shift or sum exceeds `__uint128_t` |
| `Varint.Encode` | src/varint.c:132-163 | `encode(src)` is the packed big-endian value of the LEB128 chunks of `src` |
| `Varint.EncodeExamples` | src/varint.c:105-106 | encode(0) = 0, encode(1) = 0x01, encode(150) = 0x9601 |
| `Varint.ChunksOfOnes` | src/varint.c:138-152 | a value of 7k+1 one bits encodes as k chunks 0xFF and a final 0x01 |
| `Varint.EncodeMaxExample` | src/varint.c:107-117 | encode(2^64 - 1) has chunks FF x9, 01 and packs to 0xFFFFFFFFFFFFFFFFFF01 |
| `Varint.StorePayloads` | src/varint.c:171-181 | the peel loop writes the low 7 bits of each packed byte, lowest byte first, up to the highest nonzero byte, into `byte_seq[0..count)`, and leaves every entry from `count` on untouched, so for `src < 2^80` it never writes past index 9 |
| `Varint.UnpackLength` | src/varint.c:174-181 | a packed value below 256^k has at most k bytes to peel |
| `Varint.UnpackLengthConverse` | src/varint.c:174-181 | a packed value with at most k bytes to peel is below 256^k: with `UnpackLength`, `src < 2^80` is exactly the condition for the peel loop to stay inside `byte_seq[10]` |
| `Varint.UnpackAt` | src/varint.c:175-177 | entry k is byte k of the packed value with bit 7 masked off, `(src >> 8k) & 0x7F` |
| `Varint.Reassemble` | src/varint.c:183-191 | the reassembly loop yields the base-128 value of the stored payloads, first payload most significant, reduced modulo 2^64 as the `uint64_t` accumulator does |
| `Varint.Decode` | src/varint.c:169-192 | `decode(src)` is the base-128 value of the 7-bit payloads of the packed bytes, lowest byte most significant, modulo 2^64 |
| `Varint.ChunksPayloadValue` | src/varint.c:138-152 | the payloads of the chunks, read most significant first in base 128, give back the encoded value |
| `Varint.UnpackPacked` | src/varint.c:174-181 | peeling the packed form of a byte sequence with a nonzero first byte gives its payloads, last byte first |
| `Varint.RoundTrip` | src/varint.c:102-119 | for every 64-bit value, zero included, the packed encoding is below 2^80 and decoding it gives the value back |
| `Varint.ParseEncodeDecode` | src/varint.c:62-119 | parse, encode and decode in sequence: `assert(n == decoded)` in `main` always holds |

## Left out

- Argument checking, `fopen`, `fread` and `fclose`, and the exit codes
  (src/varint.c:12-26, 40, 124-126) are I/O. The model starts from the
  8-byte buffer the read produced.
- A short read leaves `buffer` partly uninitialised in C. The model does not
  capture that; `ParseBigEndian` requires exactly 8 bytes.
- The diagnostic `printf` loops and the final prints (src/varint.c:43-53,
  121-122) are output only and change no state the codec uses.
- `Varint.Decode`: `decode` of a value at or above 2^80 writes past
  `byte_seq[10]` in C, which is undefined behaviour. The model requires
  `src < 2^80`. Every value `encode` returns meets this, as `RoundTrip`
  states.
- `int` loop indices and `size_t` counters are modelled as unbounded
  integers. Here they never exceed 10, so no narrowing or wrap can occur.
