/**
 * Bit packing shared by every extraction path: a bit list (one `u8` per
 * bit, as the source keeps it) is grouped into chunks of eight and each
 * complete chunk is folded most-significant-bit first into a byte; a
 * trailing chunk shorter than eight is dropped.
 */
module Packing {
  import opened Sequences

  /** True when every element of `bits` is a 0 or 1 bit. */
  predicate IsBits(bits: seq<bv8>) {
    forall k :: 0 <= k < |bits| ==> bits[k] <= 1
  }

  /**
   * The fold `chunk.iter().fold(0, |byte, &bit| (byte << 1) | bit)` over `u8`,
   * written with the last bit outermost.
   */
  function Fold(chunk: seq<bv8>): bv8
    decreases |chunk|
  {
    if chunk == [] then 0 else (Fold(chunk[..|chunk| - 1]) << 1) | chunk[|chunk| - 1]
  }

  /** The fold of eight bits, spelled out. */
  function Fold8(c0: bv8, c1: bv8, c2: bv8, c3: bv8, c4: bv8, c5: bv8, c6: bv8, c7: bv8): bv8 {
    var a1 := (c0 << 1) | c1;
    var a2 := (a1 << 1) | c2;
    var a3 := (a2 << 1) | c3;
    var a4 := (a3 << 1) | c4;
    var a5 := (a4 << 1) | c5;
    var a6 := (a5 << 1) | c6;
    (a6 << 1) | c7
  }

  /** `bits_to_bytes`: one byte per complete chunk of eight, trailing bits dropped. */
  function BitsToBytes(bits: seq<bv8>): seq<bv8>
    decreases |bits|
  {
    if |bits| < 8 then [] else [Fold(bits[..8])] + BitsToBytes(bits[8..])
  }

  /** Bit `j` (0 = most significant) of byte `b`: `(b >> (7 - j)) & 1`. */
  function BitAt(b: bv8, j: nat): (r: bv8)
    requires j < 8
    ensures r <= 1
  {
    (b >> (7 - j)) & 1
  }

  /** The eight bits of `b`, most significant first. */
  function ByteBits(b: bv8): (r: seq<bv8>)
    ensures |r| == 8
  {
    [BitAt(b, 0), BitAt(b, 1), BitAt(b, 2), BitAt(b, 3),
     BitAt(b, 4), BitAt(b, 5), BitAt(b, 6), BitAt(b, 7)]
  }

  /** A byte buffer read as one contiguous MSB-first bit stream. */
  function Unpack(bytes: seq<bv8>): seq<bv8>
    decreases |bytes|
  {
    if bytes == [] then [] else ByteBits(bytes[0]) + Unpack(bytes[1..])
  }

  // ---------------------------------------------------------------------
  // Laws of the packer

  /** Appending a bit to the folded prefix shifts the accumulator once more. */
  lemma FoldSnoc(chunk: seq<bv8>, bit: bv8)
    ensures Fold(chunk + [bit]) == (Fold(chunk) << 1) | bit
  {
    assert (chunk + [bit])[..|chunk|] == chunk;
  }

  /** Folding one more element of a chunk. */
  lemma FoldPrefix(chunk: seq<bv8>, k: nat)
    requires k < |chunk|
    ensures Fold(chunk[..k + 1]) == (Fold(chunk[..k]) << 1) | chunk[k]
  {
    assert chunk[..k + 1][..k] == chunk[..k];
  }

  /** The fold of a chunk of eight is the spelled-out fold of its elements. */
  lemma FoldEight(chunk: seq<bv8>)
    requires |chunk| == 8
    ensures Fold(chunk) == Fold8(chunk[0], chunk[1], chunk[2], chunk[3], chunk[4], chunk[5], chunk[6], chunk[7])
  {
    FoldFour(chunk);
    FoldPrefix(chunk, 4);
    FoldPrefix(chunk, 5);
    FoldPrefix(chunk, 6);
    FoldPrefix(chunk, 7);
    assert chunk[..8] == chunk;
  }

  /** The fold of the first four elements of a chunk, spelled out. */
  lemma FoldFour(chunk: seq<bv8>)
    requires |chunk| >= 4
    ensures Fold(chunk[..4]) == (((((chunk[0] << 1) | chunk[1]) << 1) | chunk[2]) << 1) | chunk[3]
  {
    assert chunk[..0] == [];
    FoldPrefix(chunk, 0);
    FoldPrefix(chunk, 1);
    FoldPrefix(chunk, 2);
    FoldPrefix(chunk, 3);
  }

  /** Reading back the bits of a spelled-out fold of eight 0/1 bits. */
  lemma Fold8Bits(c0: bv8, c1: bv8, c2: bv8, c3: bv8, c4: bv8, c5: bv8, c6: bv8, c7: bv8)
    requires c0 <= 1 && c1 <= 1 && c2 <= 1 && c3 <= 1 && c4 <= 1 && c5 <= 1 && c6 <= 1 && c7 <= 1
    ensures var f := Fold8(c0, c1, c2, c3, c4, c5, c6, c7);
            && BitAt(f, 0) == c0 && BitAt(f, 1) == c1 && BitAt(f, 2) == c2 && BitAt(f, 3) == c3
            && BitAt(f, 4) == c4 && BitAt(f, 5) == c5 && BitAt(f, 6) == c6 && BitAt(f, 7) == c7
  {
  }

  /** `bits_to_bytes` yields exactly `|bits| / 8` bytes, byte `k` being the fold of `bits[8k..8k+8]`. */
  lemma {:induction false} BitsToBytesShape(bits: seq<bv8>)
    ensures |BitsToBytes(bits)| == |bits| / 8
    ensures forall k :: 0 <= k < |bits| / 8 ==> BitsToBytes(bits)[k] == Fold(bits[8 * k..8 * k + 8])
    decreases |bits|
  {
    if |bits| >= 8 {
      var rest := bits[8..];
      BitsToBytesShape(rest);
      forall k | 1 <= k < |bits| / 8
        ensures BitsToBytes(bits)[k] == Fold(bits[8 * k..8 * k + 8])
      {
        assert rest[8 * (k - 1)..8 * (k - 1) + 8] == bits[8 * k..8 * k + 8];
      }
    }
  }

  /** The bit list beyond the last complete chunk plays no part in the result. */
  lemma {:induction false} BitsToBytesDropsTail(bits: seq<bv8>)
    ensures BitsToBytes(bits) == BitsToBytes(bits[..8 * (|bits| / 8)])
    decreases |bits|
  {
    if |bits| >= 8 {
      var n := 8 * (|bits| / 8);
      assert bits[..n][..8] == bits[..8];
      assert bits[..n][8..] == bits[8..][..8 * (|bits[8..]| / 8)];
      BitsToBytesDropsTail(bits[8..]);
    }
  }

  /** Concatenating two bit lists whose first part is whole chunks packs piecewise. */
  lemma {:induction false} BitsToBytesAppend(a: seq<bv8>, b: seq<bv8>)
    requires |a| % 8 == 0
    ensures BitsToBytes(a + b) == BitsToBytes(a) + BitsToBytes(b)
    decreases |a|
  {
    if a != [] {
      assert (a + b)[..8] == a[..8];
      assert (a + b)[8..] == a[8..] + b;
      BitsToBytesAppend(a[8..], b);
    } else {
      assert a + b == b;
    }
  }

  /**
   * The inline packers (`current_byte = (current_byte << 1) | bit; bit_count += 1;
   * if bit_count == 8 { push }`) keep the bits seen so far as `whole + pending`, where
   * `whole` is a run of complete chunks already pushed and `pending` (fewer than
   * eight bits) is folded in `current_byte`. The pending bits add nothing to the output.
   */
  lemma PackPending(whole: seq<bv8>, pending: seq<bv8>)
    requires |whole| % 8 == 0 && |pending| < 8
    ensures BitsToBytes(whole + pending) == BitsToBytes(whole)
  {
    BitsToBytesAppend(whole, pending);
  }

  /** Once eight bits are pending, exactly one byte, their fold, is pushed. */
  lemma PackChunk(whole: seq<bv8>, chunk: seq<bv8>)
    requires |whole| % 8 == 0 && |chunk| == 8
    ensures BitsToBytes(whole + chunk) == BitsToBytes(whole) + [Fold(chunk)]
  {
    BitsToBytesAppend(whole, chunk);
    assert chunk[..8] == chunk;
    assert chunk[8..] == [];
  }

  /**
   * The state of an inline packer after the bits `whole + pending`: `out`
   * holds the bytes of `whole`, `current_byte` the fold of `pending`, and
   * `bit_count` how many bits are pending.
   */
  ghost predicate Packed(out: seq<bv8>, currentByte: bv8, bitCount: nat, whole: seq<bv8>, pending: seq<bv8>) {
    |whole| % 8 == 0 && |pending| == bitCount < 8 && out == BitsToBytes(whole) && currentByte == Fold(pending)
  }

  /** Element `j` of the MSB-first bits of `b` is bit `j`. */
  lemma ByteBitsAt(b: bv8, j: nat)
    requires j < 8
    ensures ByteBits(b)[j] == BitAt(b, j)
  {
    if j == 0 { } else if j == 1 { } else if j == 2 { } else if j == 3 { }
    else if j == 4 { } else if j == 5 { } else if j == 6 { } else { assert j == 7; }
  }

  /** The bits of a byte are 0 or 1. */
  lemma ByteBitsAreBits(b: bv8)
    ensures IsBits(ByteBits(b))
  {
    forall j | 0 <= j < 8 ensures ByteBits(b)[j] <= 1 {
      ByteBitsAt(b, j);
    }
  }

  /** Two bit lists joined are a bit list. */
  lemma IsBitsAppend(a: seq<bv8>, b: seq<bv8>)
    requires IsBits(a) && IsBits(b)
    ensures IsBits(a + b)
  {
    forall k | 0 <= k < |a + b| ensures (a + b)[k] <= 1 {
      if k < |a| { assert (a + b)[k] == a[k]; } else { assert (a + b)[k] == b[k - |a|]; }
    }
  }

  /** A packer in state `Packed(out, ..., whole, pending)` has emitted `BitsToBytes(whole + pending)`. */
  lemma PackedOutput(out: seq<bv8>, currentByte: bv8, bitCount: nat, whole: seq<bv8>, pending: seq<bv8>)
    requires Packed(out, currentByte, bitCount, whole, pending)
    ensures out == BitsToBytes(whole + pending)
  {
    PackPending(whole, pending);
  }

  /**
   * One step of the inline packer of `get_entropy` and `whiten`:
   * `current_byte = (current_byte << 1) | bit; bit_count += 1;` and, once
   * `bit_count == 8`, push `current_byte` and reset both.
   */
  method PushBit(out: seq<bv8>, currentByte: bv8, bitCount: nat, bit: bv8, ghost whole: seq<bv8>, ghost pending: seq<bv8>)
    returns (out': seq<bv8>, currentByte': bv8, bitCount': nat, ghost whole': seq<bv8>, ghost pending': seq<bv8>)
    requires Packed(out, currentByte, bitCount, whole, pending)
    ensures Packed(out', currentByte', bitCount', whole', pending')
    ensures whole' + pending' == whole + pending + [bit]
  {
    FoldSnoc(pending, bit);
    out', currentByte', bitCount' := out, (currentByte << 1) | bit, bitCount + 1;
    whole', pending' := whole, pending + [bit];
    AppendAssoc(whole, pending, [bit]);
    if bitCount' == 8 {
      PackChunk(whole', pending');
      WholeGrows(|whole'|);
      out' := out' + [currentByte'];
      currentByte' := 0;
      bitCount' := 0;
      assert whole' + pending' + [] == whole' + pending';
      whole', pending' := whole' + pending', [];
    }
  }

  lemma WholeGrows(n: nat)
    requires n % 8 == 0
    ensures (n + 8) % 8 == 0
  {
  }

  /** Eight 0/1 bits folded and read back give the same eight bits. */
  lemma ByteBitsOfFold(chunk: seq<bv8>)
    requires |chunk| == 8 && IsBits(chunk)
    ensures ByteBits(Fold(chunk)) == chunk
  {
    FoldEight(chunk);
    Fold8Bits(chunk[0], chunk[1], chunk[2], chunk[3], chunk[4], chunk[5], chunk[6], chunk[7]);
  }

  /** Folding the eight bits of a byte gives the byte back. */
  lemma FoldOfByteBits(b: bv8)
    ensures Fold(ByteBits(b)) == b
  {
    FoldEight(ByteBits(b));
  }

  /** The MSB-first stream of `n` bytes has `8n` bits, all 0 or 1. */
  lemma {:induction false} UnpackShape(bytes: seq<bv8>)
    ensures |Unpack(bytes)| == 8 * |bytes| && IsBits(Unpack(bytes))
    decreases |bytes|
  {
    if bytes != [] {
      UnpackShape(bytes[1..]);
      ByteBitsAreBits(bytes[0]);
      IsBitsAppend(ByteBits(bytes[0]), Unpack(bytes[1..]));
    }
  }

  /** Reading bytes as bits and packing them again is the identity. */
  lemma {:induction false} PackUnpack(bytes: seq<bv8>)
    ensures BitsToBytes(Unpack(bytes)) == bytes
    decreases |bytes|
  {
    if bytes != [] {
      var bits := Unpack(bytes);
      UnpackShape(bytes[1..]);
      assert bits[..8] == ByteBits(bytes[0]);
      assert bits[8..] == Unpack(bytes[1..]);
      FoldOfByteBits(bytes[0]);
      PackUnpack(bytes[1..]);
    }
  }

  /** Packing 0/1 bits and reading them back recovers every bit of the complete chunks. */
  lemma {:induction false} UnpackPack(bits: seq<bv8>)
    requires IsBits(bits)
    ensures Unpack(BitsToBytes(bits)) == bits[..8 * (|bits| / 8)]
    decreases |bits|
  {
    if |bits| >= 8 {
      ByteBitsOfFold(bits[..8]);
      UnpackPack(bits[8..]);
      var n := 8 * (|bits| / 8);
      assert bits[..n] == bits[..8] + bits[8..][..8 * (|bits[8..]| / 8)];
    }
  }

  /** A list of `n` one-bits packs into `n / 8` bytes of `0xFF`. */
  lemma {:induction false} PackConstant(bits: seq<bv8>, bit: bv8)
    requires bit <= 1
    requires forall k :: 0 <= k < |bits| ==> bits[k] == bit
    ensures BitsToBytes(bits) == seq(|bits| / 8, _ => if bit == 1 then 0xFF else 0x00)
    decreases |bits|
  {
    if |bits| >= 8 {
      var chunk := bits[..8];
      assert chunk == [bit, bit, bit, bit, bit, bit, bit, bit];
      FoldEight(chunk);
      PackConstant(bits[8..], bit);
    }
  }
}
