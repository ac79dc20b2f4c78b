/**
 * The two extraction strategies: the differential grid (`chop_and_tack`,
 * in its `Option`-returning and its panicking variant, and the full-frame
 * comparison `get_entropy`) and the single-frame least-significant-bit
 * pick (`pick_and_flip`). Each produces a bit list and packs it with
 * `Packing.BitsToBytes`.
 */
module Extraction {
  import opened Wrappers
  import opened Sequences
  import opened Packing

  /** Width in pixels of the border the grid leaves out on every side. */
  const Border: nat := 100

  // =====================================================================
  // Differential grid (`chop_and_tack`)

  /**
   * The per-pixel expression `(c > p) as u8 - (c < p) as u8` in wrapping
   * `u8` arithmetic: 1 when the pixel brightened, 0 when it stayed the same,
   * and 0 - 1 = 255 when it darkened.
   */
  function CompareBit(c: bv8, p: bv8): (r: bv8)
    ensures (r == 1) == (c > p)
    ensures (r == 0) == (c == p)
    ensures (r == 0xFF) == (c < p)
  {
    (if c > p then 1 else 0) - (if c < p then 1 else 0)
  }

  /** The index range `(start..end).step_by(stride)`. */
  function StepBy(start: nat, end: int, stride: nat): seq<nat>
    requires stride > 0
    decreases end - start
  {
    if start >= end then [] else [start] + StepBy(start + stride, end, stride)
  }

  /** The sampled indices of grid rows `row..endRow`, each row from `row*width + 100` to `(row+1)*width - 100`. */
  function GridIndices(width: nat, stride: nat, row: nat, endRow: int): seq<nat>
    requires stride > 0
    decreases endRow - row
  {
    if row >= endRow then []
    else StepBy(row * width + Border, (row + 1) * width - Border, stride) + GridIndices(width, stride, row + 1, endRow)
  }

  /**
   * What one sampled index contributes: nothing when it fails the bounds
   * filter `idx < bound`, otherwise the compare bit unless the `bit <= 1`
   * filter removes it.
   */
  function SampleBit(current: seq<bv8>, previous: seq<bv8>, bound: nat, idx: nat): (r: seq<bv8>)
    requires bound <= |current| && bound <= |previous|
    ensures |r| <= 1 && IsBits(r)
  {
    if idx < bound then
      var bit := CompareBit(current[idx], previous[idx]);
      if bit <= 1 then [bit] else []
    else []
  }

  /** The bit list the grid pipeline collects over the indices `idxs`. */
  function GridBits(current: seq<bv8>, previous: seq<bv8>, bound: nat, idxs: seq<nat>): seq<bv8>
    requires bound <= |current| && bound <= |previous|
    decreases |idxs|
  {
    if idxs == [] then []
    else SampleBit(current, previous, bound, idxs[0]) + GridBits(current, previous, bound, idxs[1..])
  }

  /** The packed grid output over the window of a frame of `height` rows. */
  function GridEntropy(current: seq<bv8>, previous: seq<bv8>, bound: nat, width: nat, stride: nat, height: int): seq<bv8>
    requires bound <= |current| && bound <= |previous| && stride > 0
  {
    BitsToBytes(GridBits(current, previous, bound, GridIndices(width, stride, Border, height - Border)))
  }

  /** True when a frame of `frameLength` pixels has more than 200 columns and more than 200 rows. */
  predicate GridFits(frameLength: nat, width: nat) {
    width > 200 && frameLength / width > 200
  }

  /** True when `chop_and_tack` in src/core.rs rejects the geometry. */
  predicate BadGeometry(frameLength: nat, previousLength: nat, width: nat) {
    !GridFits(frameLength, width) || frameLength != previousLength
  }

  /**
   * `chop_and_tack` of src/core.rs: `None` on bad geometry or frames of
   * different lengths, otherwise the packed grid bits.
   */
  method ChopAndTack(current: seq<bv8>, previous: seq<bv8>, width: nat, minimumDistance: nat)
    returns (r: Option<seq<bv8>>)
    requires width > 0 && (minimumDistance > 0 || BadGeometry(|current|, |previous|, width))
    ensures r.None? <==> BadGeometry(|current|, |previous|, width)
    ensures r.Some? ==> r.value == GridEntropy(current, previous, |current|, width, minimumDistance, |current| / width)
  {
    var height := |current| / width;
    if width <= 200 || height <= 200 || |current| != |previous| {
      return None;
    }
    var entropy := CollectGrid(current, previous, |current|, width, minimumDistance, height);
    r := Some(BitsToBytes(entropy));
  }

  /**
   * `chop_and_tack` of src/lib.rs. The source subtracts `height - 100` in
   * `usize` and panics unless `height > 200` and `width > 200`; both are
   * preconditions here. It accepts frames of different lengths and samples
   * only indices below both.
   */
  method ChopAndTackPanicking(current: seq<bv8>, previous: seq<bv8>, width: nat, minimumDistance: nat)
    returns (r: seq<bv8>)
    requires GridFits(|current|, width) && minimumDistance > 0
    ensures r == ChopOutput(current, previous, width, minimumDistance)
  {
    var height := |current| / width;
    var entropy := CollectGrid(current, previous, Min(|current|, |previous|), width, minimumDistance, height);
    r := BitsToBytes(entropy);
  }

  /** What the src/lib.rs `chop_and_tack` returns when it does not panic. */
  function ChopOutput(current: seq<bv8>, previous: seq<bv8>, width: nat, minimumDistance: nat): seq<bv8>
    requires width > 0 && minimumDistance > 0
  {
    GridEntropy(current, previous, Min(|current|, |previous|), width, minimumDistance, |current| / width)
  }

  function Min(a: nat, b: nat): (m: nat)
    ensures m <= a && m <= b && (m == a || m == b)
  {
    if a <= b then a else b
  }

  /** The row loop shared by both variants: `entropy.extend(...)` once per row of the window. */
  method CollectGrid(current: seq<bv8>, previous: seq<bv8>, bound: nat, width: nat, stride: nat, height: nat)
    returns (entropy: seq<bv8>)
    requires bound <= |current| && bound <= |previous| && stride > 0 && height > 2 * Border
    ensures entropy == GridBits(current, previous, bound, GridIndices(width, stride, Border, height - Border))
  {
    entropy := [];
    var row: nat := Border;
    RowsDoneStart(current, previous, bound, width, stride, height);
    while row < height - Border
      invariant Border <= row <= height - Border
      invariant RowsDone(current, previous, bound, width, stride, height, row, entropy)
      decreases height - Border - row
    {
      var rowStart: nat := row * width + Border;
      var rowEnd: int := (row + 1) * width - Border;
      var rowBits := CollectRow(current, previous, bound, rowStart, rowEnd, stride);
      RowsDoneStep(current, previous, bound, width, stride, height, row, entropy, rowBits);
      entropy := entropy + rowBits;
      row := row + 1;
    }
    RowsDoneEnd(current, previous, bound, width, stride, height, entropy);
  }

  /** The bits of rows `Border..row` are in `entropy`: with those of the later rows they make the whole grid. */
  ghost predicate RowsDone(current: seq<bv8>, previous: seq<bv8>, bound: nat, width: nat, stride: nat, height: nat, row: nat, entropy: seq<bv8>)
    requires bound <= |current| && bound <= |previous| && stride > 0
  {
    entropy + GridBits(current, previous, bound, GridIndices(width, stride, row, height - Border))
      == GridBits(current, previous, bound, GridIndices(width, stride, Border, height - Border))
  }

  lemma RowsDoneStart(current: seq<bv8>, previous: seq<bv8>, bound: nat, width: nat, stride: nat, height: nat)
    requires bound <= |current| && bound <= |previous| && stride > 0
    ensures RowsDone(current, previous, bound, width, stride, height, Border, [])
  {
    assert [] + GridBits(current, previous, bound, GridIndices(width, stride, Border, height - Border))
        == GridBits(current, previous, bound, GridIndices(width, stride, Border, height - Border));
  }

  lemma RowsDoneEnd(current: seq<bv8>, previous: seq<bv8>, bound: nat, width: nat, stride: nat, height: nat, entropy: seq<bv8>)
    requires bound <= |current| && bound <= |previous| && stride > 0 && height >= 2 * Border
    requires RowsDone(current, previous, bound, width, stride, height, height - Border, entropy)
    ensures entropy == GridBits(current, previous, bound, GridIndices(width, stride, Border, height - Border))
  {
    assert GridIndices(width, stride, height - Border, height - Border) == [];
    assert entropy + [] == entropy;
  }

  lemma RowsDoneStep(current: seq<bv8>, previous: seq<bv8>, bound: nat, width: nat, stride: nat, height: nat, row: nat,
                     entropy: seq<bv8>, rowBits: seq<bv8>)
    requires bound <= |current| && bound <= |previous| && stride > 0 && row < height - Border
    requires RowsDone(current, previous, bound, width, stride, height, row, entropy)
    requires rowBits == GridBits(current, previous, bound, StepBy(row * width + Border, (row + 1) * width - Border, stride))
    ensures RowsDone(current, previous, bound, width, stride, height, row + 1, entropy + rowBits)
  {
    GridRowStep(current, previous, bound, width, stride, row, height - Border);
    ShiftChunk(entropy, GridBits(current, previous, bound, GridIndices(width, stride, row, height - Border)),
               GridBits(current, previous, bound, StepBy(row * width + Border, (row + 1) * width - Border, stride)),
               GridBits(current, previous, bound, GridIndices(width, stride, row + 1, height - Border)),
               GridBits(current, previous, bound, GridIndices(width, stride, Border, height - Border)));
  }

  /** The indices of rows `row..endRow` start with those of row `row`. */
  lemma GridIndicesRow(width: nat, stride: nat, row: nat, endRow: int)
    requires stride > 0 && row < endRow
    ensures GridIndices(width, stride, row, endRow)
         == StepBy(row * width + Border, (row + 1) * width - Border, stride) + GridIndices(width, stride, row + 1, endRow)
  {
  }

  /** The bits of rows `row..endRow` start with those of row `row`. */
  lemma GridRowStep(current: seq<bv8>, previous: seq<bv8>, bound: nat, width: nat, stride: nat, row: nat, endRow: int)
    requires bound <= |current| && bound <= |previous| && stride > 0 && row < endRow
    ensures GridBits(current, previous, bound, GridIndices(width, stride, row, endRow))
         == GridBits(current, previous, bound, StepBy(row * width + Border, (row + 1) * width - Border, stride))
          + GridBits(current, previous, bound, GridIndices(width, stride, row + 1, endRow))
  {
    GridIndicesRow(width, stride, row, endRow);
    GridBitsAppend(current, previous, bound, StepBy(row * width + Border, (row + 1) * width - Border, stride),
                   GridIndices(width, stride, row + 1, endRow));
  }

  /** The iterator chain of one row: `(row_start..row_end).step_by(stride)`, filtered, mapped, filtered. */
  method CollectRow(current: seq<bv8>, previous: seq<bv8>, bound: nat, rowStart: nat, rowEnd: int, stride: nat)
    returns (bits: seq<bv8>)
    requires bound <= |current| && bound <= |previous| && stride > 0
    ensures bits == GridBits(current, previous, bound, StepBy(rowStart, rowEnd, stride))
  {
    ghost var all := StepBy(rowStart, rowEnd, stride);
    bits := [];
    var idx := rowStart;
    while idx < rowEnd
      invariant bits + GridBits(current, previous, bound, StepBy(idx, rowEnd, stride))
             == GridBits(current, previous, bound, all)
      decreases rowEnd - idx
    {
      ghost var rest := StepBy(idx + stride, rowEnd, stride);
      GridBitsCons(current, previous, bound, idx, rest);
      var sample := SamplePixel(current, previous, bound, idx);
      assert (bits + sample) + GridBits(current, previous, bound, rest)
          == bits + (sample + GridBits(current, previous, bound, rest));
      bits := bits + sample;
      idx := idx + stride;
    }
    assert bits + [] == bits;
  }

  /** One step of the iterator chain: the bounds filter, the compare expression, the `bit <= 1` filter. */
  method SamplePixel(current: seq<bv8>, previous: seq<bv8>, bound: nat, idx: nat) returns (sample: seq<bv8>)
    requires bound <= |current| && bound <= |previous|
    ensures sample == SampleBit(current, previous, bound, idx)
  {
    sample := [];
    if idx < bound {
      var c := current[idx];
      var p := previous[idx];
      var bit := CompareBit(c, p);
      if bit <= 1 {
        sample := [bit];
      }
    }
  }

  // ---------------------------------------------------------------------
  // Laws of the grid pipeline

  lemma GridBitsCons(current: seq<bv8>, previous: seq<bv8>, bound: nat, idx: nat, rest: seq<nat>)
    requires bound <= |current| && bound <= |previous|
    ensures GridBits(current, previous, bound, [idx] + rest)
         == SampleBit(current, previous, bound, idx) + GridBits(current, previous, bound, rest)
  {
    assert ([idx] + rest)[1..] == rest;
  }

  /** The pipeline over two index runs is the two pipelines one after the other. */
  lemma {:induction false} GridBitsAppend(current: seq<bv8>, previous: seq<bv8>, bound: nat, a: seq<nat>, b: seq<nat>)
    requires bound <= |current| && bound <= |previous|
    ensures GridBits(current, previous, bound, a + b)
         == GridBits(current, previous, bound, a) + GridBits(current, previous, bound, b)
    decreases |a|
  {
    if a == [] {
      assert a + b == b;
    } else {
      assert (a + b)[0] == a[0];
      assert (a + b)[1..] == a[1..] + b;
      GridBitsAppend(current, previous, bound, a[1..], b);
    }
  }

  /** The `j`-th index of a stepped range. */
  function Lattice(start: nat, j: nat, stride: nat): nat {
    start + j * stride
  }

  /** One stride further along is one step further in the lattice. */
  lemma LatticeShift(start: nat, j: nat, stride: nat)
    ensures Lattice(start + stride, j, stride) == Lattice(start, j + 1, stride)
  {
    assert (j + 1) * stride == j * stride + stride;
  }

  /** A non-empty stepped range is its start followed by the range one stride on. */
  lemma StepByUnfold(start: nat, end: int, stride: nat, idx: nat)
    requires stride > 0 && start < end
    ensures idx in StepBy(start, end, stride) <==> idx == start || idx in StepBy(start + stride, end, stride)
  {
  }

  /** Every index `step_by` visits is a lattice point below `end`. */
  lemma {:induction false} StepBySound(start: nat, end: int, stride: nat, idx: nat)
    requires stride > 0 && idx in StepBy(start, end, stride)
    ensures idx < end && exists j: nat :: Lattice(start, j, stride) == idx
    decreases end - start
  {
    StepByUnfold(start, end, stride, idx);
    if idx == start {
      assert Lattice(start, 0, stride) == idx;
    } else {
      StepBySound(start + stride, end, stride, idx);
      var j: nat :| Lattice(start + stride, j, stride) == idx;
      LatticeShift(start, j, stride);
    }
  }

  /** Every lattice point below `end` is visited by `step_by`. */
  lemma {:induction false} StepByComplete(start: nat, end: int, stride: nat, idx: nat, j: nat)
    requires stride > 0 && idx < end && Lattice(start, j, stride) == idx
    ensures idx in StepBy(start, end, stride)
    decreases j
  {
    assert start <= idx;
    StepByUnfold(start, end, stride, idx);
    if j > 0 {
      LatticeShift(start, j - 1, stride);
      StepByComplete(start + stride, end, stride, idx, j - 1);
    }
  }

  /** `step_by` visits exactly the indices `start + j*stride` below `end`. */
  lemma StepByMembers(start: nat, end: int, stride: nat, idx: nat)
    requires stride > 0
    ensures idx in StepBy(start, end, stride) <==> idx < end && exists j: nat :: Lattice(start, j, stride) == idx
  {
    if idx in StepBy(start, end, stride) {
      StepBySound(start, end, stride, idx);
    }
    if idx < end && exists j: nat :: Lattice(start, j, stride) == idx {
      var j: nat :| Lattice(start, j, stride) == idx;
      StepByComplete(start, end, stride, idx, j);
    }
  }

  /** Every index of a stepped range lies in `[start, end)`, and there are at most `end - start` of them. */
  lemma {:induction false} StepByRange(start: nat, end: int, stride: nat)
    requires stride > 0
    ensures forall idx :: idx in StepBy(start, end, stride) ==> start <= idx < end
    ensures |StepBy(start, end, stride)| <= if start < end then end - start else 0
    decreases end - start
  {
    if start < end {
      StepByRange(start + stride, end, stride);
    }
  }

  /** The grid point of row `row`, step `j`: `row*width + 100 + j*stride`. */
  function GridPoint(width: nat, stride: nat, row: nat, j: nat): nat {
    Lattice(row * width + Border, j, stride)
  }

  /** True when `idx` is the `j`-th step of row `row` and lies inside that row's window. */
  predicate OnGrid(width: nat, stride: nat, row: nat, j: nat, idx: nat) {
    GridPoint(width, stride, row, j) == idx && idx < (row + 1) * width - Border
  }

  /** Every index the grid visits in rows `firstRow..endRow` is a grid point of one of those rows. */
  lemma {:induction false} GridIndicesSound(width: nat, stride: nat, firstRow: nat, endRow: int, idx: nat)
    requires stride > 0
    requires idx in GridIndices(width, stride, firstRow, endRow)
    ensures exists row: nat, j: nat :: firstRow <= row < endRow && OnGrid(width, stride, row, j, idx)
    decreases endRow - firstRow
  {
    assert firstRow < endRow;
    var rowStart, rowEnd := firstRow * width + Border, (firstRow + 1) * width - Border;
    GridIndicesRow(width, stride, firstRow, endRow);
    if idx in StepBy(rowStart, rowEnd, stride) {
      StepBySound(rowStart, rowEnd, stride, idx);
      var j: nat :| Lattice(rowStart, j, stride) == idx;
      assert OnGrid(width, stride, firstRow, j, idx);
    } else {
      assert idx in GridIndices(width, stride, firstRow + 1, endRow);
      GridIndicesSound(width, stride, firstRow + 1, endRow, idx);
      var row: nat, j: nat :| firstRow + 1 <= row < endRow && OnGrid(width, stride, row, j, idx);
      assert firstRow <= row < endRow && OnGrid(width, stride, row, j, idx);
    }
  }

  /** Every grid point of rows `firstRow..endRow` inside its row's window is visited. */
  lemma {:induction false} GridIndicesComplete(width: nat, stride: nat, firstRow: nat, endRow: int, row: nat, j: nat, idx: nat)
    requires stride > 0
    requires firstRow <= row < endRow && OnGrid(width, stride, row, j, idx)
    ensures idx in GridIndices(width, stride, firstRow, endRow)
    decreases endRow - firstRow
  {
    var rowStart, rowEnd := firstRow * width + Border, (firstRow + 1) * width - Border;
    assert GridIndices(width, stride, firstRow, endRow)
        == StepBy(rowStart, rowEnd, stride) + GridIndices(width, stride, firstRow + 1, endRow);
    if row == firstRow {
      assert Lattice(rowStart, j, stride) == idx;
      StepByMembers(rowStart, rowEnd, stride, idx);
      assert idx in StepBy(rowStart, rowEnd, stride);
    } else {
      GridIndicesComplete(width, stride, firstRow + 1, endRow, row, j, idx);
    }
  }

  /**
   * The grid samples exactly the points `row*width + 100 + j*stride` that
   * lie before `(row+1)*width - 100`, for the rows `firstRow..endRow`.
   */
  lemma GridIndicesMembers(width: nat, stride: nat, firstRow: nat, endRow: int, idx: nat)
    requires stride > 0
    ensures idx in GridIndices(width, stride, firstRow, endRow)
        <==> exists row: nat, j: nat :: firstRow <= row < endRow && OnGrid(width, stride, row, j, idx)
  {
    if idx in GridIndices(width, stride, firstRow, endRow) {
      GridIndicesSound(width, stride, firstRow, endRow, idx);
    }
    if exists row: nat, j: nat :: firstRow <= row < endRow && OnGrid(width, stride, row, j, idx) {
      var row: nat, j: nat :| firstRow <= row < endRow && OnGrid(width, stride, row, j, idx);
      GridIndicesComplete(width, stride, firstRow, endRow, row, j, idx);
    }
  }

  lemma MulMonotone(a: nat, b: nat, w: nat)
    requires a <= b
    ensures a * w <= b * w
  {
  }

  /**
   * Every index the grid samples from rows `firstRow..endRow` lies below
   * `endRow*width - 100`, and the grid holds at most `width` samples per row.
   */
  lemma {:induction false} GridIndicesBelow(width: nat, stride: nat, firstRow: nat, endRow: int)
    requires stride > 0
    ensures forall idx :: idx in GridIndices(width, stride, firstRow, endRow) ==> idx < endRow * width - Border
    ensures |GridIndices(width, stride, firstRow, endRow)| <= if firstRow < endRow then (endRow - firstRow) * width else 0
    decreases endRow - firstRow
  {
    if firstRow < endRow {
      var rowStart, rowEnd := firstRow * width + Border, (firstRow + 1) * width - Border;
      GridIndicesBelow(width, stride, firstRow + 1, endRow);
      StepByRange(rowStart, rowEnd, stride);
      MulMonotone(firstRow + 1, endRow, width);
      assert (endRow - firstRow) * width == (endRow - (firstRow + 1)) * width + width;
    }
  }

  /**
   * On a frame that passes the geometry check of src/core.rs, every sampled
   * index is below the frame length, so the `idx < current.len()` filter
   * never removes anything; the window also holds fewer samples than pixels.
   */
  lemma ChopSamplesInFrame(frameLength: nat, width: nat, stride: nat)
    requires GridFits(frameLength, width) && stride > 0
    ensures var idxs := GridIndices(width, stride, Border, frameLength / width - Border);
            && (forall idx :: idx in idxs ==> idx < frameLength)
            && |idxs| <= frameLength
  {
    var height := frameLength / width;
    GridIndicesBelow(width, stride, Border, height - Border);
    MulMonotone(height - Border, height, width);
    MulMonotone(height - 2 * Border, height, width);
    assert height * width <= frameLength;
  }

  /** How many bits of the pipeline survive is at most how many indices it visits. */
  lemma {:induction false} GridBitsLength(current: seq<bv8>, previous: seq<bv8>, bound: nat, idxs: seq<nat>)
    requires bound <= |current| && bound <= |previous|
    ensures |GridBits(current, previous, bound, idxs)| <= |idxs|
    ensures IsBits(GridBits(current, previous, bound, idxs))
    decreases |idxs|
  {
    if idxs != [] {
      GridBitsLength(current, previous, bound, idxs[1..]);
    }
  }

  /**
   * When the compare expression gives the same bit `bit <= 1` at every
   * visited index below `bound`, the pipeline yields only that bit, one per
   * visited index below `bound`; when it gives 255 everywhere, nothing.
   */
  lemma {:induction false} GridBitsUniform(current: seq<bv8>, previous: seq<bv8>, bound: nat, idxs: seq<nat>, bit: bv8)
    requires bound <= |current| && bound <= |previous|
    requires forall idx :: idx in idxs && idx < bound ==> CompareBit(current[idx], previous[idx]) == bit
    ensures bit <= 1 ==> forall k :: 0 <= k < |GridBits(current, previous, bound, idxs)| ==> GridBits(current, previous, bound, idxs)[k] == bit
    ensures (forall idx :: idx in idxs ==> idx < bound) && bit <= 1 ==> |GridBits(current, previous, bound, idxs)| == |idxs|
    ensures bit > 1 ==> GridBits(current, previous, bound, idxs) == []
    decreases |idxs|
  {
    if idxs != [] {
      var head := SampleBit(current, previous, bound, idxs[0]);
      assert GridBits(current, previous, bound, idxs) == head + GridBits(current, previous, bound, idxs[1..]);
      assert forall idx :: idx in idxs[1..] ==> idx in idxs;
      GridBitsUniform(current, previous, bound, idxs[1..], bit);
      assert idxs[0] in idxs;
      if bit > 1 {
        assert head == [];
      } else {
        assert forall k :: 0 <= k < |head| ==> head[k] == bit;
      }
    }
  }

  /**
   * src/core.rs on frames where every sampled pixel brightened: every output
   * byte is 0xFF, one per eight sampled indices.
   */
  lemma ChopAllBrighterIsAllOnes(current: seq<bv8>, previous: seq<bv8>, width: nat, stride: nat)
    requires width > 0 && stride > 0 && !BadGeometry(|current|, |previous|, width)
    requires forall idx :: idx in GridIndices(width, stride, Border, |current| / width - Border) && idx < |current|
               ==> current[idx] > previous[idx]
    ensures var idxs := GridIndices(width, stride, Border, |current| / width - Border);
            GridEntropy(current, previous, |current|, width, stride, |current| / width) == seq(|idxs| / 8, _ => 0xFF)
  {
    var idxs := GridIndices(width, stride, Border, |current| / width - Border);
    ChopSamplesInFrame(|current|, width, stride);
    GridBitsUniform(current, previous, |current|, idxs, 1);
    PackConstant(GridBits(current, previous, |current|, idxs), 1);
  }

  /**
   * src/core.rs on two identical frames: the compare expression gives 0 for
   * equal pixels, so the output is all 0x00 bytes, one per eight sampled
   * indices, where the comment at src/core.rs:52 promises that equal pixels
   * are skipped.
   */
  lemma ChopIdenticalFramesIsAllZeros(frame: seq<bv8>, width: nat, stride: nat)
    requires width > 0 && stride > 0 && !BadGeometry(|frame|, |frame|, width)
    ensures var idxs := GridIndices(width, stride, Border, |frame| / width - Border);
            GridEntropy(frame, frame, |frame|, width, stride, |frame| / width) == seq(|idxs| / 8, _ => 0x00)
  {
    var idxs := GridIndices(width, stride, Border, |frame| / width - Border);
    ChopSamplesInFrame(|frame|, width, stride);
    GridBitsUniform(frame, frame, |frame|, idxs, 0);
    PackConstant(GridBits(frame, frame, |frame|, idxs), 0);
  }

  /**
   * Both variants on frames where every sampled pixel darkened: the release
   * build wraps `0 - 1` to 255, the `bit <= 1` filter drops it, and the
   * output is empty.
   */
  lemma ChopAllDarkerIsEmpty(current: seq<bv8>, previous: seq<bv8>, bound: nat, width: nat, stride: nat, height: int)
    requires bound <= |current| && bound <= |previous| && stride > 0
    requires forall idx :: idx in GridIndices(width, stride, Border, height - Border) && idx < bound
               ==> current[idx] < previous[idx]
    ensures GridEntropy(current, previous, bound, width, stride, height) == []
  {
    GridBitsUniform(current, previous, bound, GridIndices(width, stride, Border, height - Border), 0xFF);
  }

  /**
   * src/lib.rs on frames where every sampled pixel below both lengths
   * brightened: every output byte is 0xFF.
   */
  lemma ChopPanickingAllBrighterIsAllOnes(current: seq<bv8>, previous: seq<bv8>, width: nat, stride: nat)
    requires GridFits(|current|, width) && stride > 0
    requires forall idx :: idx in GridIndices(width, stride, Border, |current| / width - Border) && idx < |current| && idx < |previous|
               ==> current[idx] > previous[idx]
    ensures var r := ChopOutput(current, previous, width, stride);
            forall k :: 0 <= k < |r| ==> r[k] == 0xFF
  {
    var bound := Min(|current|, |previous|);
    var bits := GridBits(current, previous, bound, GridIndices(width, stride, Border, |current| / width - Border));
    GridBitsUniform(current, previous, bound, GridIndices(width, stride, Border, |current| / width - Border), 1);
    PackConstant(bits, 1);
  }

  /** The pipeline reads the frames only below `bound`: pixels past it cannot change the output. */
  lemma {:induction false} GridBitsBelowBound(current: seq<bv8>, previous: seq<bv8>, bound: nat, idxs: seq<nat>)
    requires bound <= |current| && bound <= |previous|
    ensures GridBits(current, previous, bound, idxs) == GridBits(current[..bound], previous[..bound], bound, idxs)
    decreases |idxs|
  {
    if idxs != [] {
      GridBitsBelowBound(current, previous, bound, idxs[1..]);
    }
  }

  /** The packed output of either variant has at most one byte per eight pixels of the current frame. */
  lemma ChopOutputFits(current: seq<bv8>, previous: seq<bv8>, bound: nat, width: nat, stride: nat)
    requires bound <= |current| && bound <= |previous|
    requires GridFits(|current|, width) && stride > 0
    ensures |GridEntropy(current, previous, bound, width, stride, |current| / width)| <= |current| / 8
  {
    var idxs := GridIndices(width, stride, Border, |current| / width - Border);
    ChopSamplesInFrame(|current|, width, stride);
    GridBitsLength(current, previous, bound, idxs);
    BitsToBytesShape(GridBits(current, previous, bound, idxs));
  }

  // =====================================================================
  // Single-frame least-significant bits (`pick_and_flip`)

  /** True when `pixel` lies in the inclusive range `low..=high`. */
  predicate InRange(pixel: bv8, low: bv8, high: bv8) {
    low <= pixel <= high
  }

  /** `pixel & 1`, XORed with 1 when the frame index is even. */
  function Lsb(pixel: bv8, frameIndex: nat): (r: bv8)
    ensures r <= 1
  {
    if frameIndex % 2 == 0 then (pixel & 1) ^ 1 else pixel & 1
  }

  /** The pixels of `data` in the range `low..=high`, in order. */
  function InRangePixels(data: seq<bv8>, low: bv8, high: bv8): seq<bv8>
    decreases |data|
  {
    if data == [] then []
    else (if InRange(data[0], low, high) then [data[0]] else []) + InRangePixels(data[1..], low, high)
  }

  /** The bit list `pick_and_flip` collects: one (possibly flipped) LSB per pixel in range. */
  function LsbBits(data: seq<bv8>, low: bv8, high: bv8, frameIndex: nat): seq<bv8>
    decreases |data|
  {
    if data == [] then []
    else (if InRange(data[0], low, high) then [Lsb(data[0], frameIndex)] else []) + LsbBits(data[1..], low, high, frameIndex)
  }

  /** `pick_and_flip`: the for loop pushing one bit per pixel in range, then `bits_to_bytes`. */
  method PickAndFlip(data: seq<bv8>, low: bv8, high: bv8, currentFrameIndex: nat) returns (r: seq<bv8>)
    ensures r == BitsToBytes(LsbBits(data, low, high, currentFrameIndex))
  {
    var bits: seq<bv8> := [];
    for i := 0 to |data|
      invariant bits + LsbBits(data[i..], low, high, currentFrameIndex) == LsbBits(data, low, high, currentFrameIndex)
    {
      var pixel := data[i];
      LsbBitsStep(data, low, high, currentFrameIndex, i);
      ghost var rest := LsbBits(data[i + 1..], low, high, currentFrameIndex);
      var sample := PickPixel(pixel, low, high, currentFrameIndex);
      AppendAssoc(bits, sample, rest);
      bits := bits + sample;
    }
    assert LsbBits(data[|data|..], low, high, currentFrameIndex) == [];
    assert bits + [] == bits;
    r := BitsToBytes(bits);
  }

  /** The loop body: the range filter, the LSB, the flip on an even frame index. */
  method PickPixel(pixel: bv8, low: bv8, high: bv8, currentFrameIndex: nat) returns (sample: seq<bv8>)
    ensures sample == if InRange(pixel, low, high) then [Lsb(pixel, currentFrameIndex)] else []
  {
    sample := [];
    if low <= pixel <= high {
      var lsb := pixel & 1;
      if currentFrameIndex % 2 == 0 {
        lsb := lsb ^ 1;
      }
      sample := [lsb];
    }
  }

  lemma LsbBitsStep(data: seq<bv8>, low: bv8, high: bv8, frameIndex: nat, i: nat)
    requires i < |data|
    ensures LsbBits(data[i..], low, high, frameIndex)
         == (if InRange(data[i], low, high) then [Lsb(data[i], frameIndex)] else []) + LsbBits(data[i + 1..], low, high, frameIndex)
  {
    assert data[i..][1..] == data[i + 1..];
  }

  /**
   * One bit per pixel in range, each the LSB of that pixel, flipped exactly
   * when the frame index is even.
   */
  lemma {:induction false} LsbBitsShape(data: seq<bv8>, low: bv8, high: bv8, frameIndex: nat)
    ensures var bits, pixels := LsbBits(data, low, high, frameIndex), InRangePixels(data, low, high);
            && |bits| == |pixels|
            && (forall k :: 0 <= k < |pixels| ==> InRange(pixels[k], low, high))
            && (forall k :: 0 <= k < |bits| ==>
                  bits[k] == if frameIndex % 2 == 0 then (pixels[k] & 1) ^ 1 else pixels[k] & 1)
            && IsBits(bits)
  {
    InRangePixelsSound(data, low, high);
    LsbBitsOfPixels(data, low, high, frameIndex);
  }

  lemma {:induction false} InRangePixelsSound(data: seq<bv8>, low: bv8, high: bv8)
    ensures forall k :: 0 <= k < |InRangePixels(data, low, high)| ==> InRange(InRangePixels(data, low, high)[k], low, high)
    decreases |data|
  {
    if data != [] {
      InRangePixelsSound(data[1..], low, high);
      var head: seq<bv8> := if InRange(data[0], low, high) then [data[0]] else [];
      var rest := InRangePixels(data[1..], low, high);
      var pixels := head + rest;
      assert InRangePixels(data, low, high) == pixels;
      forall k | 0 <= k < |pixels| ensures InRange(pixels[k], low, high) {
        if k < |head| { assert pixels[k] == head[k]; } else { assert pixels[k] == rest[k - |head|]; }
      }
    }
  }

  lemma {:induction false} LsbBitsOfPixels(data: seq<bv8>, low: bv8, high: bv8, frameIndex: nat)
    ensures var bits, pixels := LsbBits(data, low, high, frameIndex), InRangePixels(data, low, high);
            |bits| == |pixels| && forall k :: 0 <= k < |bits| ==> bits[k] == Lsb(pixels[k], frameIndex)
    decreases |data|
  {
    if data != [] {
      LsbBitsOfPixels(data[1..], low, high, frameIndex);
      var inRange := InRange(data[0], low, high);
      var headBits: seq<bv8> := if inRange then [Lsb(data[0], frameIndex)] else [];
      var headPixels: seq<bv8> := if inRange then [data[0]] else [];
      var restBits, restPixels := LsbBits(data[1..], low, high, frameIndex), InRangePixels(data[1..], low, high);
      var bits, pixels := headBits + restBits, headPixels + restPixels;
      forall k | 0 <= k < |bits| ensures bits[k] == Lsb(pixels[k], frameIndex) {
        if k < |headBits| {
          assert bits[k] == headBits[k] && pixels[k] == headPixels[k];
        } else {
          assert bits[k] == restBits[k - |headBits|] && pixels[k] == restPixels[k - |headPixels|];
        }
      }
    }
  }

  /** No pixel can lie in an empty range: with `low > high` the output is empty. */
  lemma {:induction false} PickAndFlipEmptyRange(data: seq<bv8>, low: bv8, high: bv8, frameIndex: nat)
    requires low > high
    ensures BitsToBytes(LsbBits(data, low, high, frameIndex)) == []
    decreases |data|
  {
    if data != [] {
      PickAndFlipEmptyRange(data[1..], low, high, frameIndex);
    }
  }

  /** At most one output byte per eight input pixels. */
  lemma {:induction false} PickAndFlipLength(data: seq<bv8>, low: bv8, high: bv8, frameIndex: nat)
    ensures |LsbBits(data, low, high, frameIndex)| <= |data|
    ensures |BitsToBytes(LsbBits(data, low, high, frameIndex))| <= |data| / 8
    decreases |data|
  {
    if data != [] {
      PickAndFlipLength(data[1..], low, high, frameIndex);
    }
    BitsToBytesShape(LsbBits(data, low, high, frameIndex));
  }

  /**
   * Frames of opposite parity give complementary outputs: every packed bit
   * of one is the negation of the same bit of the other.
   */
  lemma PickAndFlipParity(data: seq<bv8>, low: bv8, high: bv8, even: nat, odd: nat)
    requires even % 2 == 0 && odd % 2 == 1
    ensures var e, o := LsbBits(data, low, high, even), LsbBits(data, low, high, odd);
            |e| == |o| && forall k :: 0 <= k < |e| ==> e[k] == o[k] ^ 1
  {
    LsbBitsShape(data, low, high, even);
    LsbBitsShape(data, low, high, odd);
  }

  // =====================================================================
  // Full-frame comparison (`get_entropy`, src/main.rs)

  /** What one pixel pair emits: 1 when it brightened, 0 when it darkened, nothing when unchanged. */
  function PixelBit(c: bv8, p: bv8): seq<bv8> {
    if c > p then [1] else if c < p then [0] else []
  }

  /**
   * The bits `get_entropy` emits walking `current` and `previous` in step
   * (as `zip` does, up to the shorter one): 1 where the pixel brightened,
   * 0 where it darkened, nothing where it is unchanged.
   */
  function DiffBits(current: seq<bv8>, previous: seq<bv8>): seq<bv8>
    decreases |current|
  {
    if current == [] || previous == [] then []
    else PixelBit(current[0], previous[0])
         + DiffBits(current[1..], previous[1..])
  }

  /**
   * `get_entropy`: the zip loop with the inline packer. Its output is the
   * packing of the emitted bit list by `bits_to_bytes`.
   */
  method GetEntropy(current: seq<bv8>, previous: seq<bv8>) returns (entropy: seq<bv8>)
    ensures entropy == BitsToBytes(DiffBits(current, previous))
  {
    entropy := [];
    var currentByte: bv8 := 0;
    var bitCount: nat := 0;
    ghost var whole: seq<bv8> := [];
    ghost var pending: seq<bv8> := [];
    var n := Min(|current|, |previous|);
    for i := 0 to n
      invariant Packed(entropy, currentByte, bitCount, whole, pending)
      invariant whole + pending + DiffBits(current[i..], previous[i..]) == DiffBits(current, previous)
    {
      var c, p := current[i], previous[i];
      DiffBitsStep(current, previous, i);
      ghost var rest := DiffBits(current[i + 1..], previous[i + 1..]);
      var bit: bv8;
      if c > p {
        bit := 1;
      } else if c < p {
        bit := 0;
      } else {
        assert [] + rest == rest;
        continue;
      }
      AppendAssoc(whole + pending, [bit], rest);
      entropy, currentByte, bitCount, whole, pending := PushBit(entropy, currentByte, bitCount, bit, whole, pending);
    }
    assert current[n..] == [] || previous[n..] == [];
    assert whole + pending + [] == whole + pending;
    PackedOutput(entropy, currentByte, bitCount, whole, pending);
  }

  /** One pixel pair of the zip: the bit it emits (if any) comes before those of the rest. */
  lemma DiffBitsStep(current: seq<bv8>, previous: seq<bv8>, i: nat)
    requires i < |current| && i < |previous|
    ensures DiffBits(current[i..], previous[i..])
         == PixelBit(current[i], previous[i]) + DiffBits(current[i + 1..], previous[i + 1..])
  {
    assert current[i..][1..] == current[i + 1..] && previous[i..][1..] == previous[i + 1..];
  }

  /** `get_entropy` reads only the first `min(|current|, |previous|)` pixel pairs. */
  lemma {:induction false} DiffBitsPrefix(current: seq<bv8>, previous: seq<bv8>)
    ensures var n := Min(|current|, |previous|);
            DiffBits(current, previous) == DiffBits(current[..n], previous[..n])
    decreases |current|
  {
    if current != [] && previous != [] {
      var n := Min(|current|, |previous|);
      assert current[..n][1..] == current[1..][..n - 1];
      assert previous[..n][1..] == previous[1..][..n - 1];
      DiffBitsPrefix(current[1..], previous[1..]);
    }
  }

  /** At most one bit per pixel pair, each 0 or 1. */
  lemma {:induction false} DiffBitsLength(current: seq<bv8>, previous: seq<bv8>)
    ensures |DiffBits(current, previous)| <= Min(|current|, |previous|)
    ensures IsBits(DiffBits(current, previous))
    decreases |current|
  {
    if current != [] && previous != [] {
      DiffBitsLength(current[1..], previous[1..]);
    }
  }

  /** `a` is `b` with every bit complemented. */
  predicate Complements(a: seq<bv8>, b: seq<bv8>) {
    |a| == |b| && forall k :: 0 <= k < |a| ==> a[k] == b[k] ^ 1
  }

  lemma ComplementsAppend(a: seq<bv8>, b: seq<bv8>, c: seq<bv8>, d: seq<bv8>)
    requires Complements(a, b) && Complements(c, d)
    ensures Complements(a + c, b + d)
  {
    forall k | 0 <= k < |a + c| ensures (a + c)[k] == (b + d)[k] ^ 1 {
      if k < |a| {
        assert (a + c)[k] == a[k] && (b + d)[k] == b[k];
      } else {
        assert (a + c)[k] == c[k - |a|] && (b + d)[k] == d[k - |a|];
      }
    }
  }

  /** The bit one pixel pair contributes, in both orders. */
  lemma PairComplements(c: bv8, p: bv8)
    ensures Complements(PixelBit(c, p), PixelBit(p, c))
  {
  }

  /** Swapping the two frames complements every emitted bit. */
  lemma {:induction false} DiffBitsSwap(current: seq<bv8>, previous: seq<bv8>)
    ensures Complements(DiffBits(current, previous), DiffBits(previous, current))
    decreases |current|
  {
    if current != [] && previous != [] {
      DiffBitsSwap(current[1..], previous[1..]);
      var c, p := current[0], previous[0];
      PairComplements(c, p);
      ComplementsAppend(PixelBit(c, p), PixelBit(p, c), DiffBits(current[1..], previous[1..]), DiffBits(previous[1..], current[1..]));
    }
  }

  /** Unchanged pixels are skipped: two identical frames give no output. */
  lemma {:induction false} GetEntropyIdenticalFrames(frame: seq<bv8>)
    ensures DiffBits(frame, frame) == []
    decreases |frame|
  {
    if frame != [] {
      GetEntropyIdenticalFrames(frame[1..]);
    }
  }

  /**
   * When every compared pixel brightened (or every one darkened), the bits
   * are all 1 (all 0), one per pixel pair, and the output bytes are all
   * 0xFF (all 0x00).
   */
  lemma {:induction false} DiffBitsUniform(current: seq<bv8>, previous: seq<bv8>, brighter: bool)
    requires forall i :: 0 <= i < |current| && i < |previous| ==>
               if brighter then current[i] > previous[i] else current[i] < previous[i]
    ensures DiffBits(current, previous) == seq(Min(|current|, |previous|), _ => if brighter then 1 else 0)
    decreases |current|
  {
    if current != [] && previous != [] {
      DiffBitsUniform(current[1..], previous[1..], brighter);
    }
  }

  lemma GetEntropyUniform(current: seq<bv8>, previous: seq<bv8>, brighter: bool)
    requires forall i :: 0 <= i < |current| && i < |previous| ==>
               if brighter then current[i] > previous[i] else current[i] < previous[i]
    ensures BitsToBytes(DiffBits(current, previous))
         == seq(Min(|current|, |previous|) / 8, _ => if brighter then 0xFF else 0x00)
  {
    DiffBitsUniform(current, previous, brighter);
    PackConstant(DiffBits(current, previous), if brighter then 1 else 0);
  }
}
