/**
 * Von Neumann whitening (`whiten`): the input bytes are read MSB first as
 * a stream of bit pairs; a pair `01` emits a 0, a pair `10` emits a 1 and
 * the pairs `00` and `11` are discarded.  The emitted bits are packed
 * MSB first into bytes and an incomplete last byte is dropped.
 */
module Whitening {
  import opened Sequences
  import opened Packing

  /** The bit one pair emits: `01` gives 0, `10` gives 1, anything else nothing. */
  function PairEmit(bit1: bv8, bit2: bv8): seq<bv8> {
    if bit1 == 0 && bit2 == 1 then [0]
    else if bit1 == 1 && bit2 == 0 then [1]
    else []
  }

  /** The bits von Neumann's rule keeps from a bit stream read in consecutive pairs. */
  function VonNeumann(bits: seq<bv8>): seq<bv8>
    decreases |bits|
  {
    if |bits| < 2 then [] else PairEmit(bits[0], bits[1]) + VonNeumann(bits[2..])
  }

  /** The bytes `whiten` returns for `entropy`. */
  function Whitened(entropy: seq<bv8>): seq<bv8> {
    BitsToBytes(VonNeumann(Unpack(entropy)))
  }

  /**
   * `whiten`: for every byte and `i` in 0, 2, 4, 6 the pair of bits
   * `7 - i` and `6 - i` goes through the rule above and the inline packer
   * pushes a byte whenever eight bits have been collected.
   */
  method Whiten(entropy: seq<bv8>) returns (out: seq<bv8>)
    ensures out == Whitened(entropy)
  {
    out := [];
    var currentByte: bv8 := 0;
    var bitCount: nat := 0;
    ghost var whole: seq<bv8> := [];
    ghost var pending: seq<bv8> := [];
    for k := 0 to |entropy|
      invariant Packed(out, currentByte, bitCount, whole, pending)
      invariant whole + pending + VonNeumann(Unpack(entropy[k..])) == VonNeumann(Unpack(entropy))
    {
      ghost var before := whole + pending;
      UnpackStep(entropy, k);
      out, currentByte, bitCount, whole, pending := WhitenByte(entropy[k], out, currentByte, bitCount, whole, pending);
      AppendAssoc(before, VonNeumann(ByteBits(entropy[k])), VonNeumann(Unpack(entropy[k + 1..])));
    }
    assert entropy[|entropy|..] == [];
    assert whole + pending + [] == whole + pending;
    PackedOutput(out, currentByte, bitCount, whole, pending);
  }

  /** The inner loop of `whiten`: the four pairs of one byte, fed through the packer. */
  method WhitenByte(byte: bv8, out: seq<bv8>, currentByte: bv8, bitCount: nat, ghost whole: seq<bv8>, ghost pending: seq<bv8>)
    returns (out': seq<bv8>, currentByte': bv8, bitCount': nat, ghost whole': seq<bv8>, ghost pending': seq<bv8>)
    requires Packed(out, currentByte, bitCount, whole, pending)
    ensures Packed(out', currentByte', bitCount', whole', pending')
    ensures whole' + pending' == whole + pending + VonNeumann(ByteBits(byte))
  {
    out', currentByte', bitCount', whole', pending' := out, currentByte, bitCount, whole, pending;
    ghost var before := whole + pending;
    var i := 0;
    while i < 8
      invariant i % 2 == 0 && i <= 8
      invariant Packed(out', currentByte', bitCount', whole', pending')
      invariant whole' + pending' + VonNeumann(ByteBits(byte)[i..]) == before + VonNeumann(ByteBits(byte))
    {
      var bit1 := (byte >> (7 - i)) & 1;
      var bit2 := (byte >> (6 - i)) & 1;
      ghost var rest := VonNeumann(ByteBits(byte)[i + 2..]);
      ByteBitsPairs(byte, i);
      AppendAssoc(whole' + pending', PairEmit(bit1, bit2), rest);
      out', currentByte', bitCount', whole', pending' := WhitenPair(bit1, bit2, out', currentByte', bitCount', whole', pending');
      i := i + 2;
    }
    assert ByteBits(byte)[8..] == [];
    assert whole' + pending' + [] == whole' + pending';
  }

  /** The `match (bit1, bit2)` of `whiten`: push 0 for `01`, 1 for `10`, nothing otherwise. */
  method WhitenPair(bit1: bv8, bit2: bv8, out: seq<bv8>, currentByte: bv8, bitCount: nat, ghost whole: seq<bv8>, ghost pending: seq<bv8>)
    returns (out': seq<bv8>, currentByte': bv8, bitCount': nat, ghost whole': seq<bv8>, ghost pending': seq<bv8>)
    requires Packed(out, currentByte, bitCount, whole, pending)
    ensures Packed(out', currentByte', bitCount', whole', pending')
    ensures whole' + pending' == whole + pending + PairEmit(bit1, bit2)
  {
    if bit1 == 0 && bit2 == 1 {
      out', currentByte', bitCount', whole', pending' := PushBit(out, currentByte, bitCount, 0, whole, pending);
    } else if bit1 == 1 && bit2 == 0 {
      out', currentByte', bitCount', whole', pending' := PushBit(out, currentByte, bitCount, 1, whole, pending);
    } else {
      out', currentByte', bitCount', whole', pending' := out, currentByte, bitCount, whole, pending;
      assert whole + pending + [] == whole + pending;
    }
  }

  /** The bits of byte `k` come first in the pairs of `entropy[k..]`. */
  lemma UnpackStep(entropy: seq<bv8>, k: nat)
    requires k < |entropy|
    ensures VonNeumann(Unpack(entropy[k..])) == VonNeumann(ByteBits(entropy[k])) + VonNeumann(Unpack(entropy[k + 1..]))
  {
    assert entropy[k..][1..] == entropy[k + 1..];
    VonNeumannAppend(ByteBits(entropy[k]), Unpack(entropy[k + 1..]));
  }

  /** The pair at even offset `i` of a byte is its bits `i` and `i + 1`, MSB first. */
  lemma ByteBitsPairs(b: bv8, i: nat)
    requires i % 2 == 0 && i < 8
    ensures VonNeumann(ByteBits(b)[i..]) == PairEmit(BitAt(b, i), BitAt(b, i + 1)) + VonNeumann(ByteBits(b)[i + 2..])
  {
    var bits := ByteBits(b);
    PairAt(bits, i);
    ByteBitsAt(b, i);
    ByteBitsAt(b, i + 1);
  }

  /** Reading the pairs from offset `i` starts with the pair at `i`. */
  lemma PairAt(bits: seq<bv8>, i: nat)
    requires i + 2 <= |bits|
    ensures VonNeumann(bits[i..]) == PairEmit(bits[i], bits[i + 1]) + VonNeumann(bits[i + 2..])
  {
    assert bits[i..][2..] == bits[i + 2..];
  }

  /** Pairs never straddle an even-length prefix, so whitening distributes over it. */
  lemma {:induction false} VonNeumannAppend(a: seq<bv8>, b: seq<bv8>)
    requires |a| % 2 == 0
    ensures VonNeumann(a + b) == VonNeumann(a) + VonNeumann(b)
    decreases |a|
  {
    if a == [] {
      assert a + b == b;
    } else {
      assert (a + b)[2..] == a[2..] + b;
      VonNeumannAppend(a[2..], b);
      AppendAssoc(PairEmit(a[0], a[1]), VonNeumann(a[2..]), VonNeumann(b));
    }
  }

  /** At most one bit per pair survives, and every survivor is a 0 or 1 bit. */
  lemma {:induction false} VonNeumannShape(bits: seq<bv8>)
    ensures |VonNeumann(bits)| <= |bits| / 2
    ensures IsBits(VonNeumann(bits))
    decreases |bits|
  {
    if |bits| >= 2 {
      VonNeumannShape(bits[2..]);
    }
  }

  /** The output never exceeds half the input, the capacity `whiten` reserves. */
  lemma WhitenedLength(entropy: seq<bv8>)
    ensures |Whitened(entropy)| <= |entropy| / 2
  {
    UnpackShape(entropy);
    VonNeumannShape(Unpack(entropy));
    BitsToBytesShape(VonNeumann(Unpack(entropy)));
  }

  /** How many of the consecutive pairs of `bits` hold two different bits. */
  function UnbiasedPairs(bits: seq<bv8>): nat
    decreases |bits|
  {
    if |bits| < 2 then 0 else (if bits[0] != bits[1] then 1 else 0) + UnbiasedPairs(bits[2..])
  }

  /** On 0/1 bits exactly the unbiased pairs (`01` and `10`) survive, one bit each. */
  lemma {:induction false} VonNeumannCount(bits: seq<bv8>)
    requires IsBits(bits)
    ensures |VonNeumann(bits)| == UnbiasedPairs(bits)
    decreases |bits|
  {
    if |bits| >= 2 {
      VonNeumannCount(bits[2..]);
      assert bits[0] <= 1 && bits[1] <= 1;
    }
  }

  /** `whiten` returns one byte per eight unbiased pairs of its input. */
  lemma WhitenedCount(entropy: seq<bv8>)
    ensures |Whitened(entropy)| == UnbiasedPairs(Unpack(entropy)) / 8
  {
    UnpackShape(entropy);
    VonNeumannCount(Unpack(entropy));
    BitsToBytesShape(VonNeumann(Unpack(entropy)));
  }

  /** The complement of a bit stream. */
  function Flip(bits: seq<bv8>): (r: seq<bv8>)
    ensures |r| == |bits|
  {
    seq(|bits|, k requires 0 <= k < |bits| => bits[k] ^ 1)
  }

  /** Whitening commutes with complementing the bits: it keeps no bias towards 0 or 1. */
  lemma {:induction false} VonNeumannFlip(bits: seq<bv8>)
    requires IsBits(bits)
    ensures VonNeumann(Flip(bits)) == Flip(VonNeumann(bits))
    decreases |bits|
  {
    if |bits| >= 2 {
      var f := Flip(bits);
      assert f[2..] == Flip(bits[2..]);
      VonNeumannFlip(bits[2..]);
      var head := PairEmit(bits[0], bits[1]);
      assert PairEmit(f[0], f[1]) == Flip(head);
      FlipAppend(head, VonNeumann(bits[2..]));
    }
  }

  lemma FlipAppend(a: seq<bv8>, b: seq<bv8>)
    ensures Flip(a + b) == Flip(a) + Flip(b)
  {
    forall k | 0 <= k < |a + b| ensures Flip(a + b)[k] == (Flip(a) + Flip(b))[k] {
      if k < |a| {
        assert (a + b)[k] == a[k];
      } else {
        assert (a + b)[k] == b[k - |a|];
      }
    }
  }

  /** A stream of equal pairs carries no unbiased pair at all. */
  lemma {:induction false} VonNeumannConstant(bits: seq<bv8>, bit: bv8)
    requires forall k :: 0 <= k < |bits| ==> bits[k] == bit
    ensures VonNeumann(bits) == []
    decreases |bits|
  {
    if |bits| >= 2 {
      VonNeumannConstant(bits[2..], bit);
    }
  }

  /** Whitening an all-0x00 or all-0xFF buffer yields nothing. */
  lemma WhitenedFlat(entropy: seq<bv8>, fill: bv8)
    requires fill == 0x00 || fill == 0xFF
    requires forall k :: 0 <= k < |entropy| ==> entropy[k] == fill
    ensures Whitened(entropy) == []
  {
    UnpackConstant(entropy, fill, if fill == 0x00 then 0 else 1);
    VonNeumannConstant(Unpack(entropy), if fill == 0x00 then 0 else 1);
  }

  /** Every bit of `Unpack(entropy)` of a buffer filled with 0x00 (or 0xFF) is 0 (or 1). */
  lemma {:induction false} UnpackConstant(entropy: seq<bv8>, fill: bv8, bit: bv8)
    requires (fill == 0x00 && bit == 0) || (fill == 0xFF && bit == 1)
    requires forall k :: 0 <= k < |entropy| ==> entropy[k] == fill
    ensures forall k :: 0 <= k < |Unpack(entropy)| ==> Unpack(entropy)[k] == bit
    decreases |entropy|
  {
    if entropy != [] {
      UnpackConstant(entropy[1..], fill, bit);
      assert ByteBits(fill) == [bit, bit, bit, bit, bit, bit, bit, bit];
    }
  }

  /** The pairs of `n` bytes 0x55 (`01010101`) or 0xAA (`10101010`): `4n` copies of one bit. */
  lemma {:induction false} VonNeumannAlternating(entropy: seq<bv8>, fill: bv8, bit: bv8)
    requires (fill == 0x55 && bit == 0) || (fill == 0xAA && bit == 1)
    requires forall k :: 0 <= k < |entropy| ==> entropy[k] == fill
    ensures VonNeumann(Unpack(entropy)) == seq(4 * |entropy|, _ => bit)
    decreases |entropy|
  {
    if entropy != [] {
      VonNeumannAlternating(entropy[1..], fill, bit);
      VonNeumannAppend(ByteBits(fill), Unpack(entropy[1..]));
      AlternatingByte(fill, bit);
      RepeatFour(|entropy[1..]|, bit);
    }
  }

  /** The four pairs of 0x55 are all `01` and those of 0xAA all `10`. */
  lemma AlternatingByte(fill: bv8, bit: bv8)
    requires (fill == 0x55 && bit == 0) || (fill == 0xAA && bit == 1)
    ensures VonNeumann(ByteBits(fill)) == [bit, bit, bit, bit]
  {
    AlternatingBits(fill, bit);
    AlternatingPairs(bit);
  }

  lemma AlternatingBits(fill: bv8, bit: bv8)
    requires (fill == 0x55 && bit == 0) || (fill == 0xAA && bit == 1)
    ensures ByteBits(fill) == [bit, bit ^ 1, bit, bit ^ 1, bit, bit ^ 1, bit, bit ^ 1]
  {
  }

  lemma AlternatingPairs(bit: bv8)
    requires bit <= 1
    ensures VonNeumann([bit, bit ^ 1, bit, bit ^ 1, bit, bit ^ 1, bit, bit ^ 1]) == [bit, bit, bit, bit]
  {
    var bits := [bit, bit ^ 1, bit, bit ^ 1, bit, bit ^ 1, bit, bit ^ 1];
    assert PairEmit(bit, bit ^ 1) == [bit];
    PairAt(bits, 0);
    PairAt(bits, 2);
    PairAt(bits, 4);
    PairAt(bits, 6);
    assert bits[8..] == [];
  }

  lemma RepeatFour(n: nat, bit: bv8)
    ensures seq(4 * (n + 1), _ => bit) == [bit, bit, bit, bit] + seq(4 * n, _ => bit)
  {
  }

  /** 0x55 bytes whiten to 0x00 bytes and 0xAA bytes to 0xFF bytes, one per two input bytes. */
  lemma WhitenedAlternating(entropy: seq<bv8>, fill: bv8)
    requires fill == 0x55 || fill == 0xAA
    requires forall k :: 0 <= k < |entropy| ==> entropy[k] == fill
    ensures Whitened(entropy) == seq(|entropy| / 2, _ => if fill == 0x55 then 0x00 else 0xFF)
  {
    var bit: bv8 := if fill == 0x55 then 0 else 1;
    VonNeumannAlternating(entropy, fill, bit);
    var bits := seq(4 * |entropy|, _ => bit);
    PackConstant(bits, bit);
    assert |bits| / 8 == |entropy| / 2;
  }
}
