/** The constant-time MAC of a decrypted CBC record, ssl/s3_cbc.c:ssl3_cbc_digest_record, for TLS
    (`is_sslv3` zero).  Every block that the padding could make the last one is built and hashed;
    masks select the right one. */
module CbcDigest {
  import opened Arithmetic
  import BigEndian
  import opened Hmac
  import opened Sequences

  const HEADER_LENGTH: nat := 13
  const MAX_HASH_BLOCK_SIZE: nat := 128
  const EVP_MAX_MD_SIZE: nat := 64

  // ---------- Masks ----------

  /** `constant_time_eq_8_s`, `constant_time_ge_8_s`: all ones or all zeros. */
  function EqMask(a: nat, b: nat): bv8 {
    if a == b then 0xFF else 0
  }

  function GeMask(a: nat, b: nat): bv8 {
    if a >= b then 0xFF else 0
  }

  /** `constant_time_select_8` */
  function Select(mask: bv8, a: bv8, b: bv8): bv8 {
    (mask & a) | (!mask & b)
  }

  // ---------- What the masked window means ----------

  /** The byte at offset `k` of header followed by data, zero past the end. */
  function RawByte(header: Bytes, data: Bytes, k: nat): bv8
    requires |header| == HEADER_LENGTH
  {
    if k < HEADER_LENGTH then header[k] else if k < |data| + HEADER_LENGTH then data[k - HEADER_LENGTH] else 0
  }

  /** Byte `j` of window block `i`, in plain cases. */
  function WindowByte(raw: bv8, isA: bool, isB: bool, c: nat, j: nat, lengthAt: nat, lengthByte: bv8): bv8 {
    if isB && j >= lengthAt then lengthByte
    else if isA && j == c then 0x80
    else if isA && j > c then 0
    else if isB && !isA then 0
    else raw
  }

  /** One byte of window block `i`, selected with masks only. */
  function MaskedByte(raw: bv8, i: nat, a: nat, b: nat, c: nat, j: nat, lengthAt: nat, lengthByte: bv8): bv8 {
    var isBlockA := EqMask(i, a);
    var isBlockB := EqMask(i, b);
    var isPastC := isBlockA & GeMask(j, c);
    var isPastCp1 := isBlockA & GeMask(j, c + 1);
    // at or past the end of the data, write 0x80
    var b1 := Select(isPastC, 0x80, raw);
    // past the 0x80 byte, write zero
    var b2 := b1 & !isPastCp1;
    // the length did not fit the block with the 0x80 byte: a block of zeros
    var b3 := b2 & (!isBlockB | isBlockA);
    // the last bytes of the last block are the length
    if j >= lengthAt then Select(isBlockB, lengthByte, b3) else b3
  }

  /** The mask arithmetic of the loop body is that case distinction. */
  lemma MasksAreCases(raw: bv8, i: nat, a: nat, b: nat, c: nat, j: nat, lengthAt: nat, lengthByte: bv8)
    requires !(i == b && i == a && c >= lengthAt)
    ensures MaskedByte(raw, i, a, b, c, j, lengthAt, lengthByte)
            == WindowByte(raw, i == a, i == b, c, j, lengthAt, lengthByte)
  {
  }

  // ---------- Index arithmetic ----------

  datatype Plan = Plan(start: nat, variance: nat, c: nat, indexA: nat, indexB: nat)

  /** The block counts and indices the source computes from the two lengths. */
  function MakePlan<S(!new)>(d: Digest<S>, dataSize: nat, total: nat): Plan
    requires d.Valid() && total + HEADER_LENGTH >= d.mdSize + 1
  {
    var variance := (255 + 1 + d.mdSize + d.blockSize - 1) / d.blockSize + 1;
    var maxMac := total + HEADER_LENGTH - d.mdSize - 1;
    var numBlocks := (maxMac + 1 + d.lengthSize + d.blockSize - 1) / d.blockSize;
    var end := dataSize + HEADER_LENGTH;
    Plan(if numBlocks > variance then numBlocks - variance else 0, variance,
         end % d.blockSize, end / d.blockSize, (end + d.lengthSize) / d.blockSize)
  }

  /** The public bounds on the padding of a TLS record. */
  predicate Bounds<S(!new)>(d: Digest<S>, dataSize: nat, total: nat) {
    dataSize + d.mdSize + 1 <= total <= dataSize + d.mdSize + 256
  }

  /** Only whole blocks of plaintext come before the window, and both the block with the 0x80 byte
      and the block with the length lie in the window, the latter at most one after the former. */
  lemma PlanFacts<S(!new)>(d: Digest<S>, dataSize: nat, total: nat)
    requires d.Valid() && Bounds(d, dataSize, total)
    ensures var p := MakePlan(d, dataSize, total); var end := dataSize + HEADER_LENGTH;
            && p.start * d.blockSize <= end
            && p.start <= p.indexA <= p.indexB <= p.start + p.variance
            && p.indexB <= p.indexA + 1
            && end == p.indexA * d.blockSize + p.c && p.c < d.blockSize
            && end + d.lengthSize < (p.indexB + 1) * d.blockSize
            && p.indexB * d.blockSize <= end + d.lengthSize
  {
    if d.blockSize == 64 {
    } else {
    }
  }

  // ---------- The padded message ----------

  /** Byte `i` of the padded message after the key block: message, 0x80, zeros, length. */
  function PaddedByte<S(!new)>(d: Digest<S>, m: Bytes, lastBlock: nat, i: nat): bv8
    requires d.Valid() && |m| + d.lengthSize < (lastBlock + 1) * d.blockSize && i < (lastBlock + 1) * d.blockSize
  {
    var lengthAt := (lastBlock + 1) * d.blockSize - d.lengthSize;
    if i < |m| then m[i]
    else if i == |m| then 0x80
    else if i >= lengthAt then LengthField(d, 8 * (d.blockSize + |m|))[i - lengthAt]
    else 0
  }

  lemma PaddingIsMinimal<S(!new)>(d: Digest<S>, len: nat, lastBlock: nat)
    requires d.Valid() && len + d.lengthSize < (lastBlock + 1) * d.blockSize
    requires lastBlock * d.blockSize <= len + d.lengthSize
    ensures ZeroPadding(d, d.blockSize + len) == (lastBlock + 1) * d.blockSize - (len + 1 + d.lengthSize)
  {
    var t := len + 1 + d.lengthSize;
    assert d.blockSize + len + 1 + d.lengthSize == d.blockSize + t;
    if d.blockSize == 64 {
      Remainder64(t, lastBlock);
    } else {
      Remainder128(t, lastBlock);
    }
  }

  lemma Remainder64(t: nat, q: nat)
    requires q * 64 < t <= (q + 1) * 64
    ensures (64 - (64 + t) % 64) % 64 == (q + 1) * 64 - t
  {
  }

  lemma Remainder128(t: nat, q: nat)
    requires q * 128 < t <= (q + 1) * 128
    ensures (128 - (128 + t) % 128) % 128 == (q + 1) * 128 - t
  {
  }

  /** The padding of key block and message, byte by byte. */
  lemma PadShape<S(!new)>(d: Digest<S>, keyBlock: Bytes, m: Bytes, lastBlock: nat)
    requires d.Valid() && |keyBlock| == d.blockSize
    requires |m| + d.lengthSize < (lastBlock + 1) * d.blockSize && lastBlock * d.blockSize <= |m| + d.lengthSize
    ensures var p := Pad(d, keyBlock + m);
            && |p| == (lastBlock + 2) * d.blockSize == d.blockSize + (lastBlock + 1) * d.blockSize
            && p[..d.blockSize] == keyBlock
            && forall i :: 0 <= i < (lastBlock + 1) * d.blockSize ==>
                p[d.blockSize + i] == PaddedByte(d, m, lastBlock, i)
  {
    PaddingIsMinimal(d, |m|, lastBlock);
  }

  // ---------- Absorbing ----------

  lemma {:induction false} AbsorbSamePrefix<S(!new)>(d: Digest<S>, s: S, a: Bytes, b: Bytes, n: nat)
    requires n * d.blockSize <= |a| && n * d.blockSize <= |b|
    requires forall i :: 0 <= i < n * d.blockSize ==> a[i] == b[i]
    ensures Absorb(d, s, a, n) == Absorb(d, s, b, n)
  {
    if n > 0 {
      MulMonotone(n - 1, n, d.blockSize);
      assert (n - 1) * d.blockSize + d.blockSize == n * d.blockSize;
      AbsorbSamePrefix(d, s, a, b, n - 1);
      assert BlockAt(d, a, n - 1) == BlockAt(d, b, n - 1);
    }
  }

  /** Absorbing one block and then the rest. */
  lemma {:induction false} AbsorbTail<S(!new)>(d: Digest<S>, s: S, first: Bytes, rest: Bytes, n: nat)
    requires |first| == d.blockSize && n * d.blockSize <= |rest|
    ensures (n + 1) * d.blockSize <= |first + rest|
    ensures Absorb(d, s, first + rest, n + 1) == Absorb(d, d.transform(s, first), rest, n)
  {
    assert (n + 1) * d.blockSize == n * d.blockSize + d.blockSize;
    if n == 0 {
      assert BlockAt(d, first + rest, 0) == first;
      assert Absorb(d, s, first + rest, 0) == s;
    } else {
      MulMonotone(n - 1, n, d.blockSize);
      assert (n - 1) * d.blockSize + d.blockSize == n * d.blockSize;
      AbsorbTail(d, s, first, rest, n - 1);
      assert BlockAt(d, first + rest, n) == BlockAt(d, rest, n - 1);
    }
  }

  /** The hash of key block and message, through the padded bytes after the key block. */
  lemma HashThroughTail<S(!new)>(d: Digest<S>, keyBlock: Bytes, m: Bytes, lastBlock: nat, tail: Bytes)
    requires d.Valid() && |keyBlock| == d.blockSize
    requires |m| + d.lengthSize < (lastBlock + 1) * d.blockSize && lastBlock * d.blockSize <= |m| + d.lengthSize
    requires tail == Pad(d, keyBlock + m)[d.blockSize..]
    ensures |tail| == (lastBlock + 1) * d.blockSize
    ensures Hash(d, keyBlock + m) ==
        d.finalRaw(Absorb(d, d.transform(d.init, keyBlock), tail, lastBlock + 1))[..d.mdSize]
  {
    PadShape(d, keyBlock, m, lastBlock);
    var p := Pad(d, keyBlock + m);
    assert p == keyBlock + tail;
    AbsorbTail(d, d.init, keyBlock, tail, lastBlock + 1);
    DivExact(|p|, lastBlock + 2, d.blockSize);
  }

  /** Which part of the padded message a window position falls in. */
  lemma WindowPosition(size: nat, lengthSize: nat, end: nat, indexA: nat, indexB: nat, c: nat, i: nat, j: nat)
    requires size > 0 && lengthSize < size && j < size && c < size && end == indexA * size + c
    requires indexA <= indexB <= indexA + 1 && i <= indexB
    requires indexB * size <= end + lengthSize < (indexB + 1) * size
    ensures i * size + j < (indexB + 1) * size
    ensures i * size + j < end <==> i < indexA || (i == indexA && j < c)
    ensures i * size + j == end <==> i == indexA && j == c
    ensures i * size + j >= (indexB + 1) * size - lengthSize <==> i == indexB && j >= size - lengthSize
    ensures indexA == indexB ==> c < size - lengthSize
  {
    assert (i + 1) * size == i * size + size && (indexB + 1) * size == indexB * size + size;
    MulMonotone(i + 1, indexB + 1, size);
    if i < indexA {
      MulMonotone(i + 1, indexA, size);
    }
    if indexA < i {
      assert (indexA + 1) * size == indexA * size + size;
      MulMonotone(indexA + 1, i, size);
    }
    if i < indexB {
      MulMonotone(i + 1, indexB, size);
    }
  }

  /** Up to the last block, the window builds the padded message. */
  lemma WindowIsPadding<S(!new)>(d: Digest<S>, header: Bytes, data: Bytes, dataSize: nat, i: nat, j: nat)
    requires d.Valid() && |header| == HEADER_LENGTH && Bounds(d, dataSize, |data|)
    requires var p := MakePlan(d, dataSize, |data|); i <= p.indexB && j < d.blockSize
    ensures var p := MakePlan(d, dataSize, |data|);
            var m := header + data[..dataSize];
            var field := LengthField(d, 8 * (d.blockSize + |m|));
            var lengthAt := d.blockSize - d.lengthSize;
            && |m| + d.lengthSize < (p.indexB + 1) * d.blockSize
            && i * d.blockSize + j < (p.indexB + 1) * d.blockSize
            && !(i == p.indexB && i == p.indexA && p.c >= lengthAt)
            && PaddedByte(d, m, p.indexB, i * d.blockSize + j)
               == WindowByte(RawByte(header, data, i * d.blockSize + j), i == p.indexA, i == p.indexB, p.c, j, lengthAt,
                             if j >= lengthAt then field[j - lengthAt] else 0)
  {
    PlanFacts(d, dataSize, |data|);
    var p := MakePlan(d, dataSize, |data|);
    WindowPosition(d.blockSize, d.lengthSize, dataSize + HEADER_LENGTH, p.indexA, p.indexB, p.c, i, j);
    hide MakePlan;
    PaddedIsWindow(d, header, data, dataSize, p.indexA, p.indexB, p.c, i, j);
  }

  lemma PaddedIsWindow<S(!new)>(d: Digest<S>, header: Bytes, data: Bytes, dataSize: nat, indexA: nat, indexB: nat,
                                c: nat, i: nat, j: nat)
    requires d.Valid() && |header| == HEADER_LENGTH && dataSize <= |data| && j < d.blockSize
    requires dataSize + HEADER_LENGTH + d.lengthSize < (indexB + 1) * d.blockSize
    requires i * d.blockSize + j < (indexB + 1) * d.blockSize
    requires i * d.blockSize + j < dataSize + HEADER_LENGTH <==> i < indexA || (i == indexA && j < c)
    requires i * d.blockSize + j == dataSize + HEADER_LENGTH <==> i == indexA && j == c
    requires i * d.blockSize + j >= (indexB + 1) * d.blockSize - d.lengthSize <==>
        i == indexB && j >= d.blockSize - d.lengthSize
    requires i <= indexB && indexA <= indexB <= indexA + 1 && (indexA == indexB ==> c < d.blockSize - d.lengthSize)
    ensures var m := header + data[..dataSize];
            var field := LengthField(d, 8 * (d.blockSize + |m|));
            var lengthAt := d.blockSize - d.lengthSize;
            PaddedByte(d, m, indexB, i * d.blockSize + j)
            == WindowByte(RawByte(header, data, i * d.blockSize + j), i == indexA, i == indexB, c, j, lengthAt,
                          if j >= lengthAt then field[j - lengthAt] else 0)
  {
    hide LengthField;
    if i == indexB && j >= d.blockSize - d.lengthSize {
      assert i * d.blockSize + j - ((indexB + 1) * d.blockSize - d.lengthSize) == j - (d.blockSize - d.lengthSize) by {
        assert (indexB + 1) * d.blockSize == indexB * d.blockSize + d.blockSize;
      }
    }
  }

  // ---------- The function ----------

  lemma {:induction false} SmallNumber(n: nat, k: nat)
    requires n < BigEndian.Pow256(k)
    ensures forall i :: i >= k ==> NumberByte(n, i) == 0
  {
    forall i | i >= k ensures NumberByte(n, i) == 0 {
      BigEndian.PowMonotone(k, i);
      DivSmall(n, BigEndian.Pow256(i));
    }
  }

  lemma DivSmall(n: nat, d: nat)
    requires n < d
    ensures n / d == 0
  {
  }

  lemma Pow256Values()
    ensures BigEndian.Pow256(0) == 1 && BigEndian.Pow256(1) == 0x100 && BigEndian.Pow256(2) == 0x1_0000
    ensures BigEndian.Pow256(3) == 0x100_0000
    ensures BigEndian.Pow256(4) == 0x1_0000_0000
  {
  }

  lemma FourByteNumber(n: nat)
    requires n < 0x1_0000_0000
    ensures NumberByte(n, 0) == Truncate(n)
    ensures NumberByte(n, 1) == Truncate(n / 0x100)
    ensures NumberByte(n, 2) == Truncate(n / 0x1_0000)
    ensures NumberByte(n, 3) == Truncate(n / 0x100_0000)
    ensures forall i :: i >= 4 ==> NumberByte(n, i) == 0
  {
    Pow256Values();
    SmallNumber(n, 4);
    hide BigEndian.Pow256;
  }

  /** The serialized hash length: four significant bytes, at the end or at the start. */
  method BuildLengthBytes<S(!new)>(d: Digest<S>, bits: nat) returns (bytes: array<bv8>)
    requires d.Valid() && bits < 0x1_0000_0000
    ensures fresh(bytes) && bytes.Length == 16 && bytes[..d.lengthSize] == LengthField(d, bits)
  {
    hide NumberByte, Truncate;
    bytes := new bv8[16](_ => 0);
    var n := d.lengthSize;
    if d.bigEndian {
      bytes[n - 4] := Truncate(bits / 0x100_0000);
      bytes[n - 3] := Truncate(bits / 0x1_0000);
      bytes[n - 2] := Truncate(bits / 0x100);
      bytes[n - 1] := Truncate(bits);
    } else {
      bytes[n - 5] := Truncate(bits / 0x100_0000);
      bytes[n - 6] := Truncate(bits / 0x1_0000);
      bytes[n - 7] := Truncate(bits / 0x100);
      bytes[n - 8] := Truncate(bits);
    }
    FourByteNumber(bits);
    assert bytes[..n] == LengthField(d, bits);
  }

  /** `for (i = 0; i < n; i++) pad[i] ^= x;` */
  method XorPad(pad: array<bv8>, n: nat, x: bv8)
    requires n <= pad.Length
    modifies pad
    ensures pad[..n] == XorAll(old(pad[..n]), x)
  {
    for i := 0 to n
      invariant forall j :: 0 <= j < i ==> pad[j] == old(pad[j]) ^ x
      invariant forall j :: i <= j < n ==> pad[j] == old(pad[j])
    {
      pad[i] := pad[i] ^ x;
    }
  }

  lemma FirstBlock<S(!new)>(d: Digest<S>, header: Bytes, data: Bytes)
    requires d.Valid() && |header| == HEADER_LENGTH && d.blockSize <= |header + data|
    ensures BlockAt(d, header + data, 0) == header + data[..d.blockSize - HEADER_LENGTH]
  {
  }

  lemma LaterBlock<S(!new)>(d: Digest<S>, header: Bytes, data: Bytes, i: nat)
    requires d.Valid() && |header| == HEADER_LENGTH && i >= 1 && (i + 1) * d.blockSize <= |header + data|
    ensures var at := d.blockSize * i - HEADER_LENGTH;
            && 0 <= at && at + d.blockSize <= |data|
            && BlockAt(d, header + data, i) == data[at..at + d.blockSize]
  {
    MulMonotone(1, i, d.blockSize);
    Distribute(i, 1, d.blockSize);
  }

  /** Hashes the first `start` blocks of header and data, which no padding can reach. */
  method AbsorbStart<S(!new)>(d: Digest<S>, state: S, header: Bytes, data: Bytes, start: nat) returns (r: S)
    requires d.Valid() && |header| == HEADER_LENGTH && start * d.blockSize <= |header + data|
    ensures r == Absorb(d, state, header + data, start)
  {
    r := state;
    var k := d.blockSize * start;
    if k > 0 {
      MulMonotone(1, start, d.blockSize);
      var firstBlock := header + data[..d.blockSize - HEADER_LENGTH];
      FirstBlock(d, header, data);
      assert Absorb(d, state, header + data, 0) == state;
      r := d.transform(r, firstBlock);
      DivExact(k, start, d.blockSize);
      for i := 1 to k / d.blockSize
        invariant i * d.blockSize <= |header + data|
        invariant r == Absorb(d, state, header + data, i)
      {
        MulMonotone(i + 1, start, d.blockSize);
        LaterBlock(d, header, data, i);
        var at := d.blockSize * i - HEADER_LENGTH;
        r := d.transform(r, data[at..at + d.blockSize]);
      }
    }
  }

  /** `built` is block `i` of the window. */
  ghost predicate IsWindowBlock<S(!new)>(d: Digest<S>, header: Bytes, data: Bytes, i: nat, indexA: nat, indexB: nat,
                                         c: nat, lengthBytes: Bytes, built: Bytes)
    requires d.Valid() && |header| == HEADER_LENGTH && |lengthBytes| == d.lengthSize
  {
    var lengthAt := d.blockSize - d.lengthSize;
    && |built| == d.blockSize
    && forall j :: 0 <= j < d.blockSize ==>
         built[j] == WindowByte(RawByte(header, data, i * d.blockSize + j), i == indexA, i == indexB, c, j, lengthAt,
                                if j >= lengthAt then lengthBytes[j - lengthAt] else 0)
  }

  /** The inner loop: builds block `i` of the window with masks only. */
  method BuildBlock<S(!new)>(d: Digest<S>, header: Bytes, data: Bytes, i: nat, indexA: nat, indexB: nat, c: nat,
                             lengthBytes: array<bv8>, block: array<bv8>)
    requires d.Valid() && |header| == HEADER_LENGTH
    requires lengthBytes.Length >= d.lengthSize && block.Length >= d.blockSize && block != lengthBytes
    requires i == indexB && i == indexA ==> c < d.blockSize - d.lengthSize
    modifies block
    ensures IsWindowBlock(d, header, data, i, indexA, indexB, c, lengthBytes[..d.lengthSize], block[..d.blockSize])
  {
    var k := i * d.blockSize;
    var lengthAt := d.blockSize - d.lengthSize;
    hide MaskedByte, WindowByte, RawByte;
    for j := 0 to d.blockSize
      invariant k == i * d.blockSize + j
      invariant forall j' :: 0 <= j' < j ==>
                  block[j'] == WindowByte(RawByte(header, data, i * d.blockSize + j'),
                                          i == indexA, i == indexB, c, j', lengthAt,
                                          if j' >= lengthAt then lengthBytes[j' - lengthAt] else 0)
    {
      var b := NextRaw(header, data, k);
      k := k + 1;
      var lengthByte := if j >= lengthAt then lengthBytes[j - lengthAt] else 0;
      MasksAreCases(b, i, indexA, indexB, c, j, lengthAt, lengthByte);
      block[j] := MaskedByte(b, i, indexA, indexB, c, j, lengthAt, lengthByte);
    }
  }

  /** The byte at offset `k` of header and data. */
  method NextRaw(header: Bytes, data: Bytes, k: nat) returns (b: bv8)
    requires |header| == HEADER_LENGTH
    ensures b == RawByte(header, data, k)
  {
    b := 0;
    if k < HEADER_LENGTH {
      b := header[k];
    } else if k < |data| + HEADER_LENGTH {
      b := data[k - HEADER_LENGTH];
    }
  }

  /** `for (j = 0; j < md_size; j++) mac_out[j] |= block[j] & is_block_b;` after `md_final_raw`. */
  method CopyIfLast(macOut: array<bv8>, raw: Bytes, n: nat, isBlockB: bv8)
    requires n <= |raw| && n <= macOut.Length && (isBlockB == 0 || isBlockB == 0xFF)
    modifies macOut
    ensures isBlockB == 0 ==> macOut[..n] == old(macOut[..n])
    ensures isBlockB == 0xFF && (forall j :: 0 <= j < n ==> old(macOut[j]) == 0) ==> macOut[..n] == raw[..n]
  {
    for j := 0 to n
      invariant forall j' :: 0 <= j' < j ==> macOut[j'] == old(macOut[j']) | (raw[j'] & isBlockB)
      invariant forall j' :: j <= j' < n ==> macOut[j'] == old(macOut[j'])
    {
      macOut[j] := macOut[j] | (raw[j] & isBlockB);
    }
  }

  /** `tail` is the padded message after the key block. */
  ghost predicate IsTail<S(!new)>(d: Digest<S>, m: Bytes, lastBlock: nat, tail: Bytes)
    requires d.Valid()
  {
    && |m| + d.lengthSize < (lastBlock + 1) * d.blockSize
    && |tail| == (lastBlock + 1) * d.blockSize
    && forall x :: 0 <= x < |tail| ==> tail[x] == PaddedByte(d, m, lastBlock, x)
  }

  /** A window block up to the last is a block of the padded message. */
  lemma BuiltBlock<S(!new)>(d: Digest<S>, header: Bytes, data: Bytes, dataSize: nat, plan: Plan, tail: Bytes, i: nat,
                            lengthBytes: Bytes, built: Bytes)
    requires d.Valid() && |header| == HEADER_LENGTH && Bounds(d, dataSize, |data|)
    requires plan == MakePlan(d, dataSize, |data|) && i <= plan.indexB
    requires lengthBytes == LengthField(d, 8 * (d.blockSize + |header + data[..dataSize]|))
    requires IsTail(d, header + data[..dataSize], plan.indexB, tail)
    requires IsWindowBlock(d, header, data, i, plan.indexA, plan.indexB, plan.c, lengthBytes, built)
    ensures (i + 1) * d.blockSize <= |tail| && built == BlockAt(d, tail, i)
  {
    hide MakePlan, LengthField, WindowByte, RawByte, PaddedByte;
    MulMonotone(i + 1, plan.indexB + 1, d.blockSize);
    Distribute(i, 1, d.blockSize);
    forall j | 0 <= j < d.blockSize ensures built[j] == tail[i * d.blockSize + j] {
      WindowIsPadding(d, header, data, dataSize, i, j);
    }
  }

  /** Before window block `i`: the running state follows the padded message up to its last block,
      and the output is zero until that block has been hashed and its digest from then on. */
  ghost predicate WindowState<S(!new)>(d: Digest<S>, s0: S, tail: Bytes, last: nat, i: nat, mdState: S, mac: Bytes)
    requires d.Valid() && (last + 1) * d.blockSize <= |tail|
  {
    && |mac| == d.mdSize
    && (i <= last + 1 ==> i * d.blockSize <= |tail| && mdState == Absorb(d, s0, tail, i))
    && (if i <= last then mac == Repeat(0, d.mdSize) else mac == d.finalRaw(Absorb(d, s0, tail, last + 1))[..d.mdSize])
  }

  lemma WindowStep<S(!new)>(d: Digest<S>, s0: S, tail: Bytes, last: nat, i: nat, mdState: S, mac: Bytes, block: Bytes,
                            mac': Bytes)
    requires d.Valid() && (last + 1) * d.blockSize <= |tail| && WindowState(d, s0, tail, last, i, mdState, mac)
    requires i <= last ==> (i + 1) * d.blockSize <= |tail| && block == BlockAt(d, tail, i)
    requires i != last ==> mac' == mac
    requires i == last && mac == Repeat(0, d.mdSize) ==> mac' == d.finalRaw(d.transform(mdState, block))[..d.mdSize]
    ensures WindowState(d, s0, tail, last, i + 1, d.transform(mdState, block), mac')
  {
    if i <= last {
      assert Absorb(d, s0, tail, i + 1) == d.transform(Absorb(d, s0, tail, i), BlockAt(d, tail, i));
    }
  }

  lemma WindowDone<S(!new)>(d: Digest<S>, s0: S, tail: Bytes, last: nat)
    requires d.Valid() && (last + 1) * d.blockSize <= |tail|
    ensures forall i, mdState, mac :: i > last && WindowState(d, s0, tail, last, i, mdState, mac) ==>
              mac == d.finalRaw(Absorb(d, s0, tail, last + 1))[..d.mdSize]
  {
  }

  /** One round of the window loop: builds block `i`, hashes it, and keeps its digest if it is the last. */
  method WindowRound<S(!new)>(d: Digest<S>, mdState: S, header: Bytes, data: Bytes, ghost dataSize: nat, plan: Plan,
                              lengthBytes: array<bv8>, ghost s0: S, ghost tail: Bytes, i: nat, macOut: array<bv8>)
    returns (r: S)
    requires d.Valid() && |header| == HEADER_LENGTH && Bounds(d, dataSize, |data|)
    requires plan == MakePlan(d, dataSize, |data|) && lengthBytes.Length >= d.lengthSize
    requires lengthBytes[..d.lengthSize] == LengthField(d, 8 * (d.blockSize + |header + data[..dataSize]|))
    requires IsTail(d, header + data[..dataSize], plan.indexB, tail)
    requires macOut.Length == EVP_MAX_MD_SIZE
    requires WindowState(d, s0, tail, plan.indexB, i, mdState, macOut[..d.mdSize])
    modifies macOut
    ensures WindowState(d, s0, tail, plan.indexB, i + 1, r, macOut[..d.mdSize])
  {
    assert (plan.indexB + 1) * d.blockSize <= |tail|;
    hide MakePlan, LengthField, IsTail, IsWindowBlock, WindowState, Absorb, BlockAt;
    LastFits(d, dataSize, |data|);
    var block := new bv8[MAX_HASH_BLOCK_SIZE](_ => 0);
    BuildBlock(d, header, data, i, plan.indexA, plan.indexB, plan.c, lengthBytes, block);
    if i <= plan.indexB {
      BuiltBlock(d, header, data, dataSize, plan, tail, i, lengthBytes[..d.lengthSize], block[..d.blockSize]);
    }
    ghost var mac := macOut[..d.mdSize];
    r := d.transform(mdState, block[..d.blockSize]);
    CopyIfLast(macOut, d.finalRaw(r), d.mdSize, EqMask(i, plan.indexB));
    WindowStep(d, s0, tail, plan.indexB, i, mdState, mac, block[..d.blockSize], macOut[..d.mdSize]);
  }

  /** The window loop: hashes every candidate last block and keeps the digest of the right one. */
  method HashWindow<S(!new)>(d: Digest<S>, state: S, header: Bytes, data: Bytes, ghost dataSize: nat, plan: Plan,
                             lengthBytes: array<bv8>, ghost s0: S, ghost tail: Bytes) returns (macOut: array<bv8>)
    requires d.Valid() && |header| == HEADER_LENGTH && Bounds(d, dataSize, |data|)
    requires plan == MakePlan(d, dataSize, |data|) && lengthBytes.Length >= d.lengthSize
    requires lengthBytes[..d.lengthSize] == LengthField(d, 8 * (d.blockSize + |header + data[..dataSize]|))
    requires IsTail(d, header + data[..dataSize], plan.indexB, tail)
    requires plan.start * d.blockSize <= |tail| && state == Absorb(d, s0, tail, plan.start)
    ensures (plan.indexB + 1) * d.blockSize <= |tail|
    ensures fresh(macOut) && macOut.Length == EVP_MAX_MD_SIZE
    ensures macOut[..d.mdSize] == d.finalRaw(Absorb(d, s0, tail, plan.indexB + 1))[..d.mdSize]
  {
    hide LengthField, Absorb;
    PlanFacts(d, dataSize, |data|);
    hide MakePlan;
    macOut := new bv8[EVP_MAX_MD_SIZE](_ => 0);
    var mdState := state;
    assert macOut[..d.mdSize] == Repeat(0, d.mdSize);
    assert WindowState(d, s0, tail, plan.indexB, plan.start, mdState, macOut[..d.mdSize]);
    WindowDone(d, s0, tail, plan.indexB);
    hide IsTail, WindowState;
    var i := plan.start;
    while i <= plan.start + plan.variance
      invariant plan.start <= i <= plan.start + plan.variance + 1
      invariant WindowState(d, s0, tail, plan.indexB, i, mdState, macOut[..d.mdSize])
    {
      mdState := WindowRound(d, mdState, header, data, dataSize, plan, lengthBytes, s0, tail, i, macOut);
      i := i + 1;
    }
  }

  lemma LastFits<S(!new)>(d: Digest<S>, dataSize: nat, total: nat)
    requires d.Valid() && Bounds(d, dataSize, total)
    ensures var p := MakePlan(d, dataSize, total); p.indexB == p.indexA ==> p.c < d.blockSize - d.lengthSize
  {
    PlanFacts(d, dataSize, total);
    var p := MakePlan(d, dataSize, total);
    hide MakePlan;
    Distribute(p.indexB, 1, d.blockSize);
  }

  /** `memset(hmac_pad, 0, ...); memcpy(hmac_pad, mac_secret, mac_secret_length);` of which the
      first `md_block_size` bytes are used. */
  method FillKeyPad<S(!new)>(d: Digest<S>, secret: Bytes) returns (pad: array<bv8>)
    requires d.Valid() && |secret| <= MAX_HASH_BLOCK_SIZE
    ensures fresh(pad) && pad.Length == MAX_HASH_BLOCK_SIZE
    ensures pad[..d.blockSize] == KeyBlock(d, UsedKey(d, secret))
  {
    pad := new bv8[MAX_HASH_BLOCK_SIZE](_ => 0);
    forall i | 0 <= i < |secret| {
      pad[i] := secret[i];
    }
  }

  /** The part of the secret that takes part: all of it, unless it is longer than a block. */
  function UsedKey<S(!new)>(d: Digest<S>, secret: Bytes): Bytes {
    if |secret| <= d.blockSize then secret else secret[..d.blockSize]
  }

  /** Before the window, only plaintext: the padded message starts with header and data. */
  lemma StartIsPlaintext<S(!new)>(d: Digest<S>, s: S, header: Bytes, data: Bytes, dataSize: nat, plan: Plan,
                                  tail: Bytes)
    requires d.Valid() && |header| == HEADER_LENGTH && Bounds(d, dataSize, |data|)
    requires plan == MakePlan(d, dataSize, |data|) && IsTail(d, header + data[..dataSize], plan.indexB, tail)
    ensures plan.start * d.blockSize <= |tail| && plan.start * d.blockSize <= |header + data|
    ensures Absorb(d, s, header + data, plan.start) == Absorb(d, s, tail, plan.start)
  {
    PlanFacts(d, dataSize, |data|);
    AbsorbSamePrefix(d, s, header + data, tail, plan.start);
  }

  /** The inner hash of HMAC as the source computes it: key block, plaintext blocks, window. */
  method InnerHash<S(!new)>(d: Digest<S>, header: Bytes, data: Bytes, dataSize: nat, innerKey: Bytes)
    returns (macOut: array<bv8>)
    requires d.Valid() && |header| == HEADER_LENGTH && Bounds(d, dataSize, |data|) && |data| < 0x10_0000
    requires |innerKey| == d.blockSize
    ensures fresh(macOut) && macOut.Length == EVP_MAX_MD_SIZE
    ensures macOut[..d.mdSize] == Hash(d, innerKey + (header + data[..dataSize]))
  {
    var plan := MakePlan(d, dataSize, |data|);
    ghost var m := header + data[..dataSize];
    ghost var tail := Pad(d, innerKey + m)[d.blockSize..] by {
      PlanFacts(d, dataSize, |data|);
      PadShape(d, innerKey, m, plan.indexB);
    }
    TailOfPadding(d, header, data, dataSize, innerKey, plan, tail);
    var bits := 8 * (dataSize + HEADER_LENGTH) + 8 * d.blockSize;
    assert bits == 8 * (d.blockSize + |m|);
    hide Pad, Hash, IsTail, MakePlan, LengthField;
    var mdState := d.transform(d.init, innerKey);
    ghost var s0 := mdState;
    var lengthBytes := BuildLengthBytes(d, bits);
    StartIsPlaintext(d, s0, header, data, dataSize, plan, tail);
    mdState := AbsorbStart(d, mdState, header, data, plan.start);
    macOut := HashWindow(d, mdState, header, data, dataSize, plan, lengthBytes, s0, tail);
  }

  lemma TailOfPadding<S(!new)>(d: Digest<S>, header: Bytes, data: Bytes, dataSize: nat, innerKey: Bytes, plan: Plan,
                               tail: Bytes)
    requires d.Valid() && |header| == HEADER_LENGTH && Bounds(d, dataSize, |data|) && |innerKey| == d.blockSize
    requires plan == MakePlan(d, dataSize, |data|)
    requires |Pad(d, innerKey + (header + data[..dataSize]))| >= d.blockSize
    requires tail == Pad(d, innerKey + (header + data[..dataSize]))[d.blockSize..]
    ensures IsTail(d, header + data[..dataSize], plan.indexB, tail)
    ensures (plan.indexB + 1) * d.blockSize <= |tail|
    ensures Hash(d, innerKey + (header + data[..dataSize]))
            == d.finalRaw(Absorb(d, d.transform(d.init, innerKey), tail, plan.indexB + 1))[..d.mdSize]
  {
    PlanFacts(d, dataSize, |data|);
    var m := header + data[..dataSize];
    hide MakePlan, Pad, Hash, PaddedByte;
    PadShape(d, innerKey, m, plan.indexB);
    HashThroughTail(d, innerKey, m, plan.indexB, tail);
    var p := Pad(d, innerKey + m);
    forall x | 0 <= x < |tail| ensures tail[x] == PaddedByte(d, m, plan.indexB, x) {
      assert tail[x] == p[d.blockSize + x];
    }
  }

  /** Which calls into the digest code succeed: setting up the inner state, allocating a context,
      starting it and feeding it, and finishing it. */
  datatype DigestCalls = DigestCalls(innerInit: bool, newContext: bool, outerInit: bool, outerUpdates: bool,
                                     outerFinal: bool)

  /** `ssl3_cbc_digest_record` for TLS.  Whether the last digest call succeeds is not looked at: if
      it does not, there is no output although the function reports success. */
  method DigestRecord<S(!new)>(d: Digest<S>, header: Bytes, data: Bytes, dataSize: nat, secret: Bytes,
                               calls: DigestCalls)
    returns (ok: bool, mdOut: Bytes)
    requires d.Valid() && |header| == HEADER_LENGTH && Bounds(d, dataSize, |data|)
    ensures ok <==> |data| < 0x10_0000 && |secret| <= MAX_HASH_BLOCK_SIZE
                    && calls.innerInit && calls.newContext && calls.outerInit && calls.outerUpdates
    ensures !ok || !calls.outerFinal ==> mdOut == []
    ensures ok && calls.outerFinal ==>
        mdOut == HmacBlockKey(d, KeyBlock(d, UsedKey(d, secret)), header + data[..dataSize])
    ensures ok && calls.outerFinal && |secret| <= d.blockSize ==> mdOut == HmacOf(d, secret, header + data[..dataSize])
  {
    ok, mdOut := false, [];
    if !(|data| < 1024 * 1024) {
      return;
    }
    if !calls.innerInit {
      return;
    }
    if !(|secret| <= MAX_HASH_BLOCK_SIZE) {
      return;
    }
    hide Hash;
    ghost var key := KeyBlock(d, UsedKey(d, secret));
    var hmacPad := FillKeyPad(d, secret);
    XorPad(hmacPad, d.blockSize, 0x36);
    var macOut := InnerHash(d, header, data, dataSize, hmacPad[..d.blockSize]);
    if !calls.newContext {
      return;
    }
    if !calls.outerInit {
      return;
    }
    // complete the HMAC in the standard manner
    XorPad(hmacPad, d.blockSize, 0x6a);
    XorTwice(key);
    if !calls.outerUpdates {
      return;
    }
    if calls.outerFinal {
      mdOut := Hash(d, hmacPad[..d.blockSize] + macOut[..d.mdSize]);
    }
    ok := true;
  }

  /** 0x36 and then 0x6a flip the same bits as 0x5c. */
  lemma XorTwice(key: Bytes)
    ensures XorAll(XorAll(key, 0x36), 0x6a) == XorAll(key, 0x5c)
  {
  }
}
