/**
 * The `extern "C"` wrappers of the library: each views caller memory as a
 * slice of the given length, runs the matching `Ocelli` method, copies the
 * result to the start of the caller's result buffer (`copy_from_slice`)
 * and stores its length through `result_len`.  A raw pointer becomes a
 * Dafny array together with the length the caller passes; the written
 * length is returned.  The result is computed from the inputs as they are
 * on entry, so it is unaffected when the result buffer overlaps an input.
 */
module Ffi {
  import opened Packing
  import opened Extraction
  import opened Whitening
  import opened Quality

  /**
   * `result_slice.copy_from_slice(&result)` on the first `|src|` cells of
   * `result`: those cells become `src` and every later cell is untouched.
   */
  method CopyInto(result: array<bv8>, src: seq<bv8>)
    requires |src| <= result.Length
    modifies result
    ensures result[..|src|] == src
    ensures result[|src|..] == old(result[|src|..])
  {
    for i := 0 to |src|
      invariant result[..i] == src[..i]
      invariant result[i..] == old(result[i..])
    {
      result[i] := src[i];
      assert result[i + 1..] == old(result[i + 1..]);
    }
  }

  /**
   * `chop_and_tack` (export): the panicking library variant on
   * `current[..currentLen]` and `previous[..previousLen]`; the caller's
   * buffer must hold the result.
   */
  method ExportChopAndTack(current: array<bv8>, currentLen: nat, previous: array<bv8>, previousLen: nat,
                           width: nat, minimumDistance: nat, result: array<bv8>) returns (resultLen: nat)
    requires currentLen <= current.Length && previousLen <= previous.Length
    requires GridFits(currentLen, width) && minimumDistance > 0
    requires |ChopOutput(current[..currentLen], previous[..previousLen], width, minimumDistance)| <= result.Length
    modifies result
    ensures var out := ChopOutput(old(current[..currentLen]), old(previous[..previousLen]), width, minimumDistance);
      resultLen == |out| && result[..resultLen] == out && result[resultLen..] == old(result[resultLen..])
  {
    var r := ChopAndTackPanicking(current[..currentLen], previous[..previousLen], width, minimumDistance);
    CopyInto(result, r);
    resultLen := |r|;
  }

  /** A result buffer of an eighth of the current frame always suffices for `chop_and_tack`. */
  lemma ChopCapacity(current: seq<bv8>, previous: seq<bv8>, width: nat, minimumDistance: nat)
    requires GridFits(|current|, width) && minimumDistance > 0
    ensures |ChopOutput(current, previous, width, minimumDistance)| <= |current| / 8
  {
    ChopOutputFits(current, previous, Min(|current|, |previous|), width, minimumDistance);
  }

  /** `pick_and_flip` (export) on `data[..dataLen]`. */
  method ExportPickAndFlip(data: array<bv8>, dataLen: nat, low: bv8, high: bv8, currentFrameIndex: nat,
                           result: array<bv8>) returns (resultLen: nat)
    requires dataLen <= data.Length
    requires |BitsToBytes(LsbBits(data[..dataLen], low, high, currentFrameIndex))| <= result.Length
    modifies result
    ensures var out := BitsToBytes(LsbBits(old(data[..dataLen]), low, high, currentFrameIndex));
      resultLen == |out| && result[..resultLen] == out && result[resultLen..] == old(result[resultLen..])
  {
    var r := PickAndFlip(data[..dataLen], low, high, currentFrameIndex);
    CopyInto(result, r);
    resultLen := |r|;
  }

  /** `whiten` (export) on `entropy[..entropyLen]`. */
  method ExportWhiten(entropy: array<bv8>, entropyLen: nat, result: array<bv8>) returns (resultLen: nat)
    requires entropyLen <= entropy.Length
    requires |Whitened(entropy[..entropyLen])| <= result.Length
    modifies result
    ensures var out := Whitened(old(entropy[..entropyLen]));
      resultLen == |out| && result[..resultLen] == out && result[resultLen..] == old(result[resultLen..])
  {
    var r := Whiten(entropy[..entropyLen]);
    CopyInto(result, r);
    resultLen := |r|;
  }

  /** `is_covered` (export): the distinct values of `grayscale[..grayscaleLen]` are fewer than `threshold`. */
  method ExportIsCovered(grayscale: array<bv8>, grayscaleLen: nat, threshold: nat) returns (covered: bool)
    requires grayscaleLen <= grayscale.Length
    ensures covered <==> |Distinct(grayscale[..grayscaleLen])| < threshold
  {
    covered := IsCovered(grayscale[..grayscaleLen], threshold);
  }
}
