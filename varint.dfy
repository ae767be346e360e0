/** The unsigned varint codec of src/varint.c and the big-endian parse that
    feeds it.

    - `ParseBigEndian` reads 8 bytes, most significant first, into a `uint64_t`.
    - `Encode` cuts a `uint64_t` into 7-bit chunks, least significant chunk
      first, sets bit 7 on every chunk but the last (unsigned LEB128, DWARF
      Version 4 section 7.6), and packs the chunks into one `__uint128_t` with
      the first chunk in the most significant occupied byte, so that reading
      the packed value's bytes from high to low gives the LEB128 wire order.
    - `Decode` peels the packed bytes off from the low end, keeps the low 7
      bits of each, and reassembles them with 7-bit shifts into a `uint64_t`.

    Every method is specified by pure functions on sequences (`BigEndian`,
    `Chunks`, `Unpack`); the lemmas state what those functions mean.
 */
module Varint {
  import opened Arith

  // ---------------------------------------------------------------------
  // Specification functions
  // ---------------------------------------------------------------------

  /** The value of `digits` read in base `base`, most significant digit first. */
  function BigEndian(base: nat, digits: seq<nat>): nat
  {
    if digits == [] then 0
    else digits[0] * Pow(base, |digits| - 1) + BigEndian(base, digits[1..])
  }

  /** The `k` bytes of `v` modulo 256^k, most significant first: what a
      big-endian writer would put in a `k`-byte buffer. */
  function BytesBE(v: nat, k: nat): seq<Byte>
  {
    if k == 0 then [] else BytesBE(v / 256, k - 1) + [v % 256]
  }

  /** The bytes `encode` stores in `byte_seq`, in the order it stores them:
      the low 7 bits of the remaining value, with bit 7 (0x80) set when bits
      remain after the 7-bit right shift. Zero has no chunks. */
  function Chunks(v: nat): seq<Byte>
    decreases v
  {
    if v == 0 then []
    else [if v / 128 > 0 then v % 128 + 128 else v % 128] + Chunks(v / 128)
  }

  /** The bytes `decode` stores in `byte_seq`: the low 7 bits of each byte of
      the packed value `x`, lowest byte first, up to the highest nonzero byte. */
  function Unpack(x: nat): seq<nat>
    decreases x
  {
    if x == 0 then [] else [x % 128] + Unpack(x / 256)
  }

  /** The 7-bit payload of each byte: the byte with bit 7 cleared. */
  function Low7s(s: seq<nat>): seq<nat>
  {
    seq(|s|, i requires 0 <= i < |s| => s[i] % 128)
  }

  function Reverse(s: seq<nat>): seq<nat>
  {
    if s == [] then [] else Reverse(s[1..]) + [s[0]]
  }

  // ---------------------------------------------------------------------
  // Big-endian values
  // ---------------------------------------------------------------------

  /** Peeling off the first digit of a suffix: the step of every loop that
      accumulates `digit << (pos * width)` from the last index down. */
  lemma BigEndianAt(base: nat, s: seq<nat>, i: nat)
    requires i < |s|
    ensures BigEndian(base, s[i..]) == s[i] * Pow(base, |s| - 1 - i) + BigEndian(base, s[i + 1..])
  {
    assert s[i..][1..] == s[i + 1..];
  }

  /** Appending a digit multiplies the value by the base and adds the digit. */
  lemma {:induction false} BigEndianSnoc(base: nat, s: seq<nat>, d: nat)
    ensures BigEndian(base, s + [d]) == BigEndian(base, s) * base + d
  {
    if s == [] {
      assert BigEndian(base, [d]) == d * Pow(base, 0) + BigEndian(base, []);
    } else {
      var p := Pow(base, |s| - 1);
      var r := BigEndian(base, s[1..]);
      assert (s + [d])[1..] == s[1..] + [d];
      BigEndianSnoc(base, s[1..], d);
      assert Pow(base, |s|) == base * p;
      assert BigEndian(base, s + [d]) == s[0] * (base * p) + (r * base + d);
      MulAssoc(s[0], p, base);
      Distrib3(s[0] * p, r, base);
    }
  }

  /** Digits below the base give a value below base^length: eight bytes never
      overflow a 64-bit accumulator, ten bytes stay below 2^80. */
  lemma {:induction false} BigEndianBound(base: nat, s: seq<nat>)
    requires forall k :: 0 <= k < |s| ==> s[k] < base
    ensures BigEndian(base, s) < Pow(base, |s|)
  {
    if s != [] {
      var p := Pow(base, |s| - 1);
      var r := BigEndian(base, s[1..]);
      BigEndianBound(base, s[1..]);
      assert BigEndian(base, s) == s[0] * p + r;
      Distrib3(s[0], 1, p);
      MulMono(s[0] + 1, base, p);
      assert Pow(base, |s|) == base * p;
    }
  }

  /** A leading digit that is not zero makes the value at least base^(length-1). */
  lemma BigEndianLeading(base: nat, s: seq<nat>)
    requires s != [] && s[0] > 0 && base > 0
    ensures BigEndian(base, s) >= Pow(base, |s| - 1) > 0
  {
    MulAtLeast(s[0], Pow(base, |s| - 1), s[0] * Pow(base, |s| - 1), 0);
  }

  /** One step of a packing loop: `byte << (pos * 8)` added to an accumulator
      that holds the value of the bytes after it gives the value of the bytes
      from `i` on, and while 256^|s| fits the accumulator's type, neither the
      shift nor the sum exceeds it. */
  lemma PackStep(s: seq<Byte>, i: nat, d: nat, pos: nat, shifted: int, n: nat, modulus: nat)
    requires i < |s| && d == s[i] && pos == |s| - 1 - i && Pow(256, |s|) <= modulus
    requires shifted == d * Pow(2, pos * 8)
    requires n == BigEndian(256, s[i + 1..])
    ensures shifted < modulus
    ensures shifted + n == BigEndian(256, s[i..]) < modulus
  {
    assert BigEndian(256, s[i..]) == s[i] * Pow(256, pos) + n by {
      BigEndianAt(256, s, i);
    }
    assert BigEndian(256, s[i..]) < modulus by {
      BigEndianBound(256, s[i..]);
      PowMonotone(256, |s| - i, |s|);
    }
    ShiftIsPow(pos);
  }

  // ---------------------------------------------------------------------
  // Big-endian parse (main, lines 62-71)
  // ---------------------------------------------------------------------

  /** The parse is injective: the 8 bytes are recovered from the value. */
  lemma {:induction false} ParseRecoversBytes(s: seq<Byte>)
    ensures BytesBE(BigEndian(256, s), |s|) == s
  {
    if s != [] {
      var p, d := s[..|s| - 1], s[|s| - 1];
      assert s == p + [d];
      BigEndianSnoc(256, p, d);
      var v := BigEndian(256, s);
      DivModUnique(v, 256, BigEndian(256, p), d);
      ParseRecoversBytes(p);
    }
  }

  /** Every value below 256^k is the parse of its own k big-endian bytes. */
  lemma {:induction false} ParseOfBytes(v: nat, k: nat)
    requires v < Pow(256, k)
    ensures BigEndian(256, BytesBE(v, k)) == v
  {
    if k > 0 {
      assert v / 256 < Pow(256, k - 1);
      ParseOfBytes(v / 256, k - 1);
      BigEndianSnoc(256, BytesBE(v / 256, k - 1), v % 256);
    }
  }

  /** `n += (uint64_t) buffer[i] << (pos++ * 8)` for `i` from 7 down to 0.
      The shift and the sum are taken exactly and assigned to a `U64`, so the
      verifier proves that neither wraps modulo 2^64. The result is the
      big-endian value of the buffer. */
  method ParseBigEndian(buffer: seq<Byte>) returns (n: U64)
    requires |buffer| == 8
    ensures n == BigEndian(256, buffer)
  {
    n := 0;
    var pos: nat := 0;
    var i: int := |buffer| - 1;
    while i >= 0
      invariant -1 <= i < |buffer|
      invariant pos == |buffer| - 1 - i
      invariant n == BigEndian(256, buffer[i + 1..])
    {
      var shifted := buffer[i] * Pow(2, pos * 8);
      PackStep(buffer, i, buffer[i], pos, shifted, n, TWO_64);
      n := n + shifted;
      pos := pos + 1;
      i := i - 1;
    }
  }

  // ---------------------------------------------------------------------
  // encode (lines 132-163)
  // ---------------------------------------------------------------------

  /** The number of chunks is the number of 7-bit groups `v` needs:
      ceil(bit_length(v) / 7), and none for zero. */
  lemma {:induction false} ChunksLength(v: nat)
    ensures |Chunks(v)| == 0 <==> v == 0
    ensures v < Pow(128, |Chunks(v)|)
    ensures v > 0 ==> Pow(128, |Chunks(v)| - 1) <= v
    decreases v
  {
    if v > 0 {
      var rest := v / 128;
      ChunksLength(rest);
      var len := |Chunks(rest)|;
      assert |Chunks(v)| == len + 1;
      MulMono(rest + 1, Pow(128, len), 128);
      if rest > 0 {
        MulMono(Pow(128, len - 1), rest, 128);
      }
    }
  }

  /** A 64-bit value has at most ten chunks, and a nonzero one at least one:
      `byte_seq[10]` is large enough. */
  lemma ChunksAtMostTen(v: nat)
    requires v < TWO_64
    ensures |Chunks(v)| <= 10
    ensures v > 0 ==> |Chunks(v)| >= 1
  {
    ChunksLength(v);
    if |Chunks(v)| > 10 {
      PowMonotone(128, 10, |Chunks(v)| - 1);
      assert false;
    }
  }

  /** Chunk k carries bits 7k to 7k+6 of `v` in its low 7 bits. */
  lemma {:induction false} ChunksPayload(v: nat, k: nat)
    requires k < |Chunks(v)|
    ensures Chunks(v)[k] % 128 == v / Pow(128, k) % 128
    decreases k
  {
    if k > 0 {
      ChunksPayload(v / 128, k - 1);
      DivDiv(v, 128, Pow(128, k - 1));
    }
  }

  /** Framing: every chunk but the last has the continuation bit 0x80 set;
      the last has it clear and is not zero. */
  lemma {:induction false} ChunksFraming(v: nat)
    ensures forall k :: 0 <= k < |Chunks(v)| - 1 ==> Chunks(v)[k] >= 128
    ensures v > 0 ==> 0 < Chunks(v)[|Chunks(v)| - 1] < 128
    decreases v
  {
    if v > 0 {
      var rest := v / 128;
      ChunksFraming(rest);
      if rest > 0 {
        ChunksLength(rest);
        assert Chunks(v)[|Chunks(v)| - 1] == Chunks(rest)[|Chunks(rest)| - 1];
        forall k | 1 <= k < |Chunks(v)| - 1
          ensures Chunks(v)[k] >= 128
        {
          assert Chunks(v)[k] == Chunks(rest)[k - 1];
        }
      }
    }
  }

  /** One pass of the chunk loop: the byte it stores for a nonzero `v` is the
      first of `Chunks(v)`, and the rest follow from `v >> 7`, so the stored
      prefix grows by one chunk of `Chunks(src)`. */
  lemma ChunksStep(done: seq<nat>, v: nat, byte: nat, src: nat)
    requires v > 0
    requires byte == if v / 128 > 0 then v % 128 + 128 else v % 128
    requires done + Chunks(v) == Chunks(src)
    ensures (done + [byte]) + Chunks(v / 128) == Chunks(src)
  {
    assert Chunks(v) == [byte] + Chunks(v / 128);
    assert (done + [byte]) + Chunks(v / 128) == done + ([byte] + Chunks(v / 128));
  }

  /** The chunk loop of `encode` (lines 136-152): while bits remain, store
      the low 7 bits, shift right by 7, and set bit 7 when bits still remain.
      It stores exactly `Chunks(src)` and stays within `byte_seq[10]`. */
  method StoreChunks(src: U64, byteSeq: array<Byte>) returns (count: nat)
    requires byteSeq.Length == 10
    modifies byteSeq
    ensures count <= 10 && byteSeq[..count] == Chunks(src)
    ensures byteSeq[count..] == old(byteSeq[count..])
  {
    count := 0;
    var rest: nat := src;
    ChunksAtMostTen(src);
    while rest > 0
      invariant count <= 10
      invariant byteSeq[..count] + Chunks(rest) == Chunks(src)
      invariant byteSeq[count..] == old(byteSeq[count..])
      decreases rest
    {
      var byte: Byte := rest % 128;
      ghost var done := byteSeq[..count];
      ghost var before := rest;
      rest := rest / 128;
      if rest > 0 {
        byte := byte + 128;
      }
      ChunksStep(done, before, byte, src);
      byteSeq[count] := byte;
      assert byteSeq[..count + 1] == done + [byte];
      count := count + 1;
    }
    assert Chunks(rest) == [] && byteSeq[..count] + [] == byteSeq[..count];
  }

  /** The packing loop of `encode` (lines 154-162): accumulate
      `(__uint128_t) byte_seq[i] << (pos++ * 8)` from the last stored byte
      down, so the first byte lands in the most significant occupied byte.
      The sum is the big-endian value of the stored bytes, and neither a
      shift nor a sum exceeds `__uint128_t`. */
  method PackChunks(byteSeq: array<Byte>, count: nat) returns (n: U128)
    requires count <= byteSeq.Length && count <= 10
    ensures n == BigEndian(256, byteSeq[..count])
  {
    assert Pow(256, count) <= TWO_128 by {
      PowMonotone(256, count, 10);
    }
    n := 0;
    var pos: nat := 0;
    var i: int := count - 1;
    while i >= 0
      invariant -1 <= i < count
      invariant pos == count - 1 - i
      invariant n == BigEndian(256, byteSeq[..count][i + 1..])
    {
      var shifted := byteSeq[i] * Pow(2, pos * 8);
      PackStep(byteSeq[..count], i, byteSeq[i], pos, shifted, n, TWO_128);
      n := n + shifted;
      pos := pos + 1;
      i := i - 1;
    }
    assert byteSeq[..count][0..] == byteSeq[..count];
  }

  /** `encode`: the packed big-endian value of the LEB128 chunks of `src`. */
  method Encode(src: U64) returns (n: U128)
    ensures n == BigEndian(256, Chunks(src))
  {
    var byteSeq := new Byte[10];
    var count := StoreChunks(src, byteSeq);
    n := PackChunks(byteSeq, count);
  }

  // ---------------------------------------------------------------------
  // decode (lines 169-192)
  // ---------------------------------------------------------------------

  /** A packed value below 256^k has at most k bytes to peel: below 2^80,
      `byte_seq[10]` is large enough. */
  lemma {:induction false} UnpackLength(x: nat, k: nat)
    requires x < Pow(256, k)
    ensures |Unpack(x)| <= k
  {
    if x > 0 {
      assert k > 0;
      UnpackLength(x / 256, k - 1);
    }
  }

  /** Conversely, a packed value with at most k bytes to peel is below 256^k:
      `src < 2^80` is exactly what keeps the peel loop inside `byte_seq[10]`. */
  lemma {:induction false} UnpackLengthConverse(x: nat, k: nat)
    requires |Unpack(x)| <= k
    ensures x < Pow(256, k)
  {
    if x > 0 {
      UnpackLengthConverse(x / 256, k - 1);
    }
  }

  lemma UnpackAtMostTen(x: nat)
    requires x < TWO_80
    ensures |Unpack(x)| <= 10
  {
    UnpackLength(x, 10);
  }

  /** Entry k is byte k of the packed value (bits 8k to 8k+7) with its bit 7
      masked off: continuation bits are ignored. */
  lemma {:induction false} UnpackAt(x: nat, k: nat)
    requires k < |Unpack(x)|
    ensures Unpack(x)[k] == x / Pow(256, k) % 128
  {
    if k > 0 {
      UnpackAt(x / 256, k - 1);
      DivDiv(x, 256, Pow(256, k - 1));
    }
  }

  /** One step of the reassembly loop: adding `entry << (pos * 7)` in
      `uint64_t` arithmetic keeps the accumulator equal to the base-128 value
      of the entries taken so far, modulo 2^64. */
  lemma ReassembleStep(entries: seq<nat>, i: nat, d: nat, pos: nat, shifted: int, n: nat)
    requires i < |entries| && d == entries[i] && pos == |entries| - 1 - i
    requires shifted == d * Pow(2, pos * 7) % TWO_64
    requires n == BigEndian(128, entries[i + 1..]) % TWO_64
    ensures (n + shifted) % TWO_64 == BigEndian(128, entries[i..]) % TWO_64
  {
    var term := d * Pow(128, pos);
    assert BigEndian(128, entries[i..]) == term + BigEndian(128, entries[i + 1..]) by {
      BigEndianAt(128, entries, i);
    }
    assert shifted == term % TWO_64 by {
      ShiftIsPow(pos);
    }
    AddMod64(BigEndian(128, entries[i + 1..]), term);
  }

  /** One pass of the peel loop: the byte it stores for a nonzero `x` is the
      first of `Unpack(x)`, and the rest follow from `x >> 8`, so the stored
      prefix grows by one entry of `Unpack(src)`. */
  lemma UnpackStep(done: seq<nat>, x: nat, byte: nat, src: nat)
    requires x > 0 && byte == x % 128
    requires done + Unpack(x) == Unpack(src)
    ensures (done + [byte]) + Unpack(x / 256) == Unpack(src)
  {
    assert Unpack(x) == [byte] + Unpack(x / 256);
    assert (done + [byte]) + Unpack(x / 256) == done + ([byte] + Unpack(x / 256));
  }

  /** The peel loop of `decode` (lines 174-181): while the packed value is
      not zero, store its low 7 bits and shift it right by 8. It stores
      exactly `Unpack(src)`, which stays within `byte_seq[10]` because
      `src < 2^80`. */
  method StorePayloads(src: U128, byteSeq: array<Byte>) returns (count: nat)
    requires src < TWO_80 && byteSeq.Length == 10
    modifies byteSeq
    ensures count <= 10 && byteSeq[..count] == Unpack(src)
    ensures byteSeq[count..] == old(byteSeq[count..])
  {
    count := 0;
    var rest: nat := src;
    UnpackAtMostTen(src);
    while rest > 0
      invariant count <= 10
      invariant byteSeq[..count] + Unpack(rest) == Unpack(src)
      invariant byteSeq[count..] == old(byteSeq[count..])
      decreases rest
    {
      var byte: Byte := rest % 128;
      ghost var done := byteSeq[..count];
      UnpackStep(done, rest, byte, src);
      rest := rest / 256;
      byteSeq[count] := byte;
      assert byteSeq[..count + 1] == done + [byte];
      count := count + 1;
    }
    assert Unpack(rest) == [] && byteSeq[..count] + [] == byteSeq[..count];
  }

  /** The reassembly loop of `decode` (lines 183-191): accumulate
      `(uint64_t) byte_seq[i] << (pos++ * 7)` from the last stored entry down
      in `uint64_t` arithmetic. The result is the base-128 value of the
      entries, first entry most significant, reduced modulo 2^64. */
  method Reassemble(byteSeq: array<Byte>, count: nat) returns (n: U64)
    requires count <= byteSeq.Length && count <= 10
    ensures n == BigEndian(128, byteSeq[..count]) % TWO_64
  {
    n := 0;
    var pos: nat := 0;
    var i: int := count - 1;
    while i >= 0
      invariant -1 <= i < count
      invariant pos == count - 1 - i
      invariant n == BigEndian(128, byteSeq[..count][i + 1..]) % TWO_64
    {
      var shifted := byteSeq[i] * Pow(2, pos * 7) % TWO_64;
      ReassembleStep(byteSeq[..count], i, byteSeq[i], pos, shifted, n);
      n := (n + shifted) % TWO_64;
      pos := pos + 1;
      i := i - 1;
    }
    assert byteSeq[..count][0..] == byteSeq[..count];
  }

  /** `decode`: the 7-bit payloads of the packed bytes, lowest byte first,
      read as a base-128 number with the lowest packed byte most significant,
      modulo 2^64. */
  method Decode(src: U128) returns (n: U64)
    requires src < TWO_80
    ensures n == BigEndian(128, Unpack(src)) % TWO_64
  {
    var byteSeq := new Byte[10];
    var count := StorePayloads(src, byteSeq);
    n := Reassemble(byteSeq, count);
  }

  // ---------------------------------------------------------------------
  // Round trip (main, lines 102-119)
  // ---------------------------------------------------------------------

  lemma {:induction false} ReverseSnoc(s: seq<nat>, x: nat)
    ensures Reverse(s + [x]) == [x] + Reverse(s)
  {
    if s != [] {
      assert (s + [x])[1..] == s[1..] + [x];
      ReverseSnoc(s[1..], x);
    }
  }

  /** The 7-bit payloads of the chunks, most significant first, read in base
      128 give back the encoded value. */
  lemma {:induction false} ChunksPayloadValue(v: nat)
    ensures BigEndian(128, Reverse(Low7s(Chunks(v)))) == v
    decreases v
  {
    if v > 0 {
      var tail := Low7s(Chunks(v / 128));
      assert Low7s(Chunks(v)) == [v % 128] + tail;
      assert ([v % 128] + tail)[1..] == tail;
      ChunksPayloadValue(v / 128);
      BigEndianSnoc(128, Reverse(tail), v % 128);
    }
  }

  /** Peeling the packed form of a byte sequence with a nonzero first byte
      gives the sequence's 7-bit payloads, last byte first. */
  lemma {:induction false} UnpackPacked(c: seq<Byte>)
    requires c == [] || c[0] != 0
    ensures Unpack(BigEndian(256, c)) == Reverse(Low7s(c))
    decreases |c|
  {
    if c != [] {
      var p, d := c[..|c| - 1], c[|c| - 1];
      assert c == p + [d];
      BigEndianSnoc(256, p, d);
      BigEndianLeading(256, c);
      var x := BigEndian(256, c);
      DivModUnique(x, 256, BigEndian(256, p), d);
      assert x % 128 == d % 128 by {
        DivModUnique(x, 128, BigEndian(256, p) * 2 + d / 128, d % 128);
      }
      UnpackPacked(p);
      assert Low7s(c) == Low7s(p) + [d % 128];
      ReverseSnoc(Low7s(p), d % 128);
    }
  }

  /** `decode(encode(v)) == v` for every 64-bit `v`, zero included; the
      packed form stays below 2^80, as `decode` requires. */
  lemma RoundTrip(v: nat)
    requires v < TWO_64
    ensures BigEndian(256, Chunks(v)) < TWO_80
    ensures BigEndian(128, Unpack(BigEndian(256, Chunks(v)))) % TWO_64 == v
  {
    var c := Chunks(v);
    assert BigEndian(256, c) < TWO_80 by {
      ChunksAtMostTen(v);
      BigEndianBound(256, c);
      PowMonotone(256, |c|, 10);
    }
    assert c == [] || c[0] != 0 by {
      ChunksFraming(v);
    }
    UnpackPacked(c);
    ChunksPayloadValue(v);
  }

  /** The part of `main` after the file read: parse the 8 bytes, encode,
      decode, and compare. The comparison `assert(n == decoded)` always
      holds. */
  method ParseEncodeDecode(buffer: seq<Byte>) returns (n: U64, encoded: U128, decoded: U64)
    requires |buffer| == 8
    ensures n == BigEndian(256, buffer)
    ensures encoded == BigEndian(256, Chunks(n)) && encoded < TWO_80
    ensures decoded == n
  {
    n := ParseBigEndian(buffer);
    encoded := Encode(n);
    RoundTrip(n);
    decoded := Decode(encoded);
  }

  // ---------------------------------------------------------------------
  // Worked values
  // ---------------------------------------------------------------------

  /** The values of the commented-out asserts in `main`
      (src/varint.c:105-106). */
  lemma EncodeExamples()
    ensures Chunks(0) == [] && BigEndian(256, Chunks(0)) == 0
    ensures Chunks(1) == [0x01] && BigEndian(256, Chunks(1)) == 0x01
    ensures Chunks(150) == [0x96, 0x01] && BigEndian(256, Chunks(150)) == 0x9601
  {
  }

  /** 7k + 1 one bits make k chunks 0xFF and a last chunk 0x01. */
  lemma {:induction false} ChunksOfOnes(k: nat)
    ensures Chunks(2 * Pow(128, k) - 1) == seq(k, _ => 0xFF) + [0x01]
  {
    if k > 0 {
      var w := 2 * Pow(128, k - 1) - 1;
      DivModUnique(2 * Pow(128, k) - 1, 128, w, 127);
      ChunksOfOnes(k - 1);
      assert seq(k, _ => 0xFF) + [0x01] == [0xFF] + (seq(k - 1, _ => 0xFF) + [0x01]);
    }
  }

  /** The packed form of nine 0xFF chunks and a final 0x01. */
  lemma PackedMax()
    ensures BigEndian(256, [0xFF, 0xFF, 0xFF, 0xFF, 0xFF, 0xFF, 0xFF, 0xFF, 0xFF, 0x01]) == 0xFFFF_FFFF_FFFF_FFFF_FF01
  {
    var packed := 0xFFFF_FFFF_FFFF_FFFF_FF01;
    assert BytesBE(packed, 10) == [0xFF, 0xFF, 0xFF, 0xFF, 0xFF, 0xFF, 0xFF, 0xFF, 0xFF, 0x01];
    ParseOfBytes(packed, 10);
  }

  /** The largest `uint64_t`, 2^64 - 1, encodes as nine 0xFF chunks and a
      final 0x01, packed as 0xFFFFFFFFFFFFFFFFFF01. */
  lemma EncodeMaxExample()
    ensures Chunks(TWO_64 - 1) == [0xFF, 0xFF, 0xFF, 0xFF, 0xFF, 0xFF, 0xFF, 0xFF, 0xFF, 0x01]
    ensures BigEndian(256, Chunks(TWO_64 - 1)) == 0xFFFF_FFFF_FFFF_FFFF_FF01
  {
    ChunksOfOnes(9);
    assert 2 * Pow(128, 9) - 1 == TWO_64 - 1;
    PackedMax();
  }

  /** Leading zero digits do not change a big-endian value. */
  lemma {:induction false} BigEndianZeros(base: nat, z: nat, s: seq<nat>)
    ensures BigEndian(base, seq(z, _ => 0) + s) == BigEndian(base, s)
  {
    if z > 0 {
      var t := seq(z, _ => 0) + s;
      assert t[0] == 0 && t[1..] == seq(z - 1, _ => 0) + s;
      BigEndianZeros(base, z - 1, s);
    } else {
      assert seq(z, _ => 0) + s == s;
    }
  }

  /** Byte order of the parse: the last byte is the least significant. */
  lemma ParseExamples()
    ensures BigEndian(256, [0, 0, 0, 0, 0, 0, 0, 0x96]) == 150
    ensures BigEndian(256, [0, 0, 0, 0, 0, 0, 0x01, 0x00]) == 256
  {
    BigEndianZeros(256, 7, [0x96]);
    assert seq(7, _ => 0) + [0x96] == [0, 0, 0, 0, 0, 0, 0, 0x96];
    BigEndianZeros(256, 6, [0x01, 0x00]);
    assert seq(6, _ => 0) + [0x01, 0x00] == [0, 0, 0, 0, 0, 0, 0x01, 0x00];
  }
}
