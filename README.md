# ocelli — a verified model of the camera-noise entropy pipeline

ocelli turns camera sensor noise into random bytes. A frame is a grayscale
buffer of `u8` pixels. Random bits are extracted from it in one of three ways:

- `chop_and_tack` compares two frames on a strided grid that skips a
  100-pixel border;
- `pick_and_flip` takes the least significant bit of every pixel in a
  brightness range and flips it on even frame indices;
- `get_entropy` compares two whole frames pixel by pixel.

The bits are packed MSB-first into bytes, eight at a time, and a trailing
partial byte is dropped. The bytes can be debiased with von Neumann
whitening. A lens-coverage test (`is_covered`: fewer than 50 distinct pixel
values) gates the grid extractor. Two command-line loops pull frames, score
each chunk with a Shannon-entropy estimate, keep a chunk only when its score
reaches a threshold, and stop once the pool holds the requested number of
bytes.

The Dafny project models each of these pieces:

| file | module | contents |
|---|---|---|
| `wrappers.dfy` | `Wrappers` | `Option` |
| `sequences.dfy` | `Sequences` | sequence associativity, the "done + todo" step of the loop proofs |
| `packing.dfy` | `Packing` | `bits_to_bytes`; the inline packer `(current_byte << 1) \| bit` with its 8-bit flush; MSB-first unpacking |
| `extraction.dfy` | `Extraction` | both `chop_and_tack` variants, `pick_and_flip`, `get_entropy` |
| `whitening.dfy` | `Whitening` | `whiten`, whose copies in src/core.rs, src/lib.rs and src/main.rs are identical |
| `quality.dfy` | `Quality` | `is_covered`; the integer frequency map of `shannon`; `required_frames` |
| `ffi.dfy` | `Ffi` | the `extern "C"` wrappers of src/lib.rs, modelled on Dafny arrays |
| `diff_harvest.dfy` | `DiffHarvest` | the accumulation loop of src/main.rs |
| `grid_harvest.dfy` | `GridHarvest` | the accumulation loop of src/bin/main.rs |

Modelling choices:

- Pixels and bits are `bv8`, so shifts, masks, XOR and the wrapping `u8`
  subtraction in `chop_and_tack` are written as the source writes them.
- Every loop of the source is a Dafny `while`/`for` loop. Each loop is proved
  against a pure function.
- The inline packers of `get_entropy` and `whiten` are proved equal to
  `bits_to_bytes` of the bit list they emit. The proof uses the invariant
  `Packed`, shared by both. The identical copies in several files are
  modelled once.
- The camera becomes a finite sequence of decoded frames. Reading past its
  end is the failing capture.
- The Shannon score becomes an arbitrary function `seq<bv8> -> real`. It is
  compared with the thresholds 4.0 and 7.9 exactly as the loops compare it.

Where the code and its comments or its description disagree, the model
follows the code:

- **`chop_and_tack` on equal pixels.** The comment at src/core.rs:52 and
  src/lib.rs:44 says "1 for c > p, 0 for c < p, skips if equal". The
  expression `(c > p) as u8 - (c < p) as u8` gives:
  - 1 when `c > p`;
  - 0 when `c == p`;
  - `0 - 1` when `c < p`, which wraps to 255 in a release build and is then
    removed by the `bit <= 1` filter.

  The model uses the expression. `CompareBit` states the three cases,
  `ChopIdenticalFramesIsAllZeros` shows the consequence for two identical
  frames, and `ChopAllDarkerIsEmpty` the one for an all-darker frame.
- **`whiten` on 0x55.** Pair `01` emits 0 and pair `10` emits 1. So an input
  of 0x55 bytes (01010101) whitens to 0x00 bytes, and 0xAA to 0xFF
  (`WhitenedAlternating`).
- **The first coverage check in src/main.rs has no effect.** Its check at
  src/main.rs:145-148 prints a message, but its `return` is commented out.
  The model gives it no effect.
- **Whitening happens after the loop in src/main.rs.** The whole pool is
  whitened once the loop ends. The rendered output can therefore be shorter
  than the requested length (`RenderedWhitened`).
- **The quick-mode call at src/bin/main.rs:81 does not compile as written.**
  It passes two arguments to the four-argument `pick_and_flip`. It is
  modelled with the brightness range `low..=high` as a parameter of the run.

## Model

| member | source | states |
|---|---|---|
| Packing.BitsToBytesShape | src/core.rs:6-16 | `bits_to_bytes` returns exactly `\|bits\| / 8` bytes, and byte `k` is the MSB-first fold of `bits[8k..8k+8]` (the same code is at src/lib.rs:8-16) |
| Packing.BitsToBytesDropsTail | src/lib.rs:9-15 | a trailing chunk shorter than eight bits is dropped: the output depends only on the first `8*(\|bits\|/8)` bits |
| Packing.BitsToBytesAppend | src/core.rs:7-15 | packing distributes over concatenation when the first part is a whole number of bytes |
| Packing.FoldEight | src/core.rs:10 | the fold `(byte << 1) \| bit` of eight bits equals the fold written out with eight shifts |
| Packing.Fold8Bits | src/core.rs:10 | reading bit `j` (`(b >> (7-j)) & 1`) of the fold of eight 0/1 bits gives back bit `j`: the fold is MSB-first |
| Packing.ByteBitsOfFold | src/lib.rs:11 | unpacking the fold of eight 0/1 bits gives the same eight bits |
| Packing.FoldOfByteBits | src/lib.rs:11 | folding the eight MSB-first bits of a byte gives the byte back |
| Packing.PackPending | src/main.rs:28-35 | bits still pending (fewer than eight) contribute no output byte |
| Packing.PackChunk | src/main.rs:31-35 | once eight bits are pending, exactly one byte, their fold, is pushed |
| Packing.PackedOutput | src/main.rs:15-38 | a packer in the `Packed` state has output equal to `bits_to_bytes` of all the bits it was given |
| Packing.PushBit | src/main.rs:21-35 | shifting a bit into `current_byte`, counting it, and flushing at eight keeps `Packed` and appends exactly that bit to the packed stream |
| Packing.ByteBitsAt | src/core.rs:108-109 | element `j` of a byte's bit list is `(byte >> (7 - j)) & 1` |
| Packing.UnpackShape | src/core.rs:106-109 | a byte buffer read as bits has `8 * len` 0/1 bits |
| Packing.PackUnpack | src/lib.rs:99-102 | packing the MSB-first bits of a byte buffer gives the buffer back |
| Packing.UnpackPack | src/lib.rs:8-16 | unpacking `bits_to_bytes(bits)` gives the complete-chunk prefix of `bits` |
| Packing.PackConstant | src/core.rs:6-16 | a constant bit list packs to `\|bits\|/8` bytes, all 0xFF for 1 and all 0x00 for 0 |
| Extraction.CompareBit | src/core.rs:52 | `(c > p) as u8 - (c < p) as u8` in wrapping `u8` arithmetic is 1 iff `c > p`, 0 iff `c == p`, and 255 iff `c < p` (the same expression is at src/lib.rs:44) |
| Extraction.SampleBit | src/core.rs:48-54 | one sampled index contributes at most one bit, and that bit is 0 or 1 |
| Extraction.ChopAndTack | src/core.rs:29-58 | `None` exactly when `width <= 200`, `len/width <= 200` or the lengths differ; otherwise the packed grid bits over rows `100..height-100`. A stride of 0 is accepted on a rejected geometry, which returns `None` before `step_by` is reached |
| Extraction.ChopAndTackPanicking | src/lib.rs:23-49 | with `width > 200` and `height > 200` (the geometry that does not panic), the packed grid bits, sampling only indices below both lengths |
| Extraction.CollectGrid | src/core.rs:41-56 | the row loop `entropy.extend(...)` collects the grid bits of every row of the window, in order |
| Extraction.CollectRow | src/lib.rs:39-46 | one row's `step_by` / filter / map / filter chain yields that row's grid bits |
| Extraction.SamplePixel | src/lib.rs:40-46 | the per-index body is the bounds filter, the compare expression, and the `bit <= 1` filter |
| Extraction.GridBitsAppend | src/core.rs:45-55 | extending row by row is sampling the concatenated index list |
| Extraction.StepByMembers | src/core.rs:46-47 | `(start..end).step_by(stride)` visits exactly the indices `start + j*stride` below `end` |
| Extraction.StepByRange | src/core.rs:46-47 | every index of a stepped range lies in `[start, end)`, and there are at most `end - start` of them |
| Extraction.GridIndicesMembers | src/core.rs:37-47 | the grid visits exactly the points `row*width + 100 + j*stride` below `(row+1)*width - 100` for rows `100..height-100` |
| Extraction.GridIndicesSound | src/core.rs:41-47 | every visited index is such a grid point |
| Extraction.GridIndicesComplete | src/core.rs:41-47 | every such grid point is visited |
| Extraction.GridIndicesBelow | src/core.rs:38-43 | every index of rows `firstRow..endRow` lies below `endRow*width - 100`, at most `width` per row |
| Extraction.ChopSamplesInFrame | src/core.rs:48 | with the accepted geometry every sampled index is below `current.len()`, so the filter `idx < current.len()` removes nothing |
| Extraction.GridBitsLength | src/core.rs:45-55 | the grid bit list has at most one 0/1 bit per sampled index |
| Extraction.GridBitsUniform | src/core.rs:49-54 | if every sampled compare gives the same `bit`, the output bits all equal it (one per index), or are empty when it is 255 |
| Extraction.ChopAllBrighterIsAllOnes | src/core.rs:49-58 | if `current > previous` at every sampled index, the result is `\|indices\|/8` bytes of 0xFF |
| Extraction.ChopIdenticalFramesIsAllZeros | src/core.rs:52 | two identical frames give `\|indices\|/8` bytes of 0x00, not an empty result, because an equal pair yields 0 |
| Extraction.ChopAllDarkerIsEmpty | src/core.rs:52-54 | if `current < previous` at every sampled index, every compare wraps to 255, is filtered out, and the result is empty |
| Extraction.ChopPanickingAllBrighterIsAllOnes | src/lib.rs:41-49 | for the src/lib.rs variant, all-brighter samples give only 0xFF bytes |
| Extraction.GridBitsBelowBound | src/lib.rs:40 | the grid output depends only on the pixels below the bound (the shorter length) |
| Extraction.ChopOutputFits | src/lib.rs:23-49 | the output holds at most `current.len() / 8` bytes |
| Extraction.PickAndFlip | src/core.rs:67-77 | the loop pushes one bit per pixel in `low..=high` and packs them; the result is `bits_to_bytes` of the LSB list (the same code is at src/lib.rs:59-71) |
| Extraction.PickPixel | src/lib.rs:62-67 | the loop body: the inclusive range test, `pixel & 1`, and the XOR with 1 on an even frame index |
| Extraction.LsbBitsShape | src/core.rs:69-74 | one bit per pixel in range, in order; each is `pixel & 1` on an odd frame index and `(pixel & 1) ^ 1` on an even one, and is 0 or 1 |
| Extraction.InRangePixelsSound | src/core.rs:69 | every selected pixel lies in `low..=high` |
| Extraction.LsbBitsOfPixels | src/lib.rs:62-67 | the bit list has one entry per selected pixel, that pixel's (possibly flipped) LSB |
| Extraction.PickAndFlipEmptyRange | src/core.rs:69 | with `low > high` nothing is in range and the output is empty |
| Extraction.PickAndFlipLength | src/core.rs:67-77 | at most one bit per pixel, so at most `\|data\|/8` output bytes |
| Extraction.PickAndFlipParity | src/core.rs:71-73 | the bits for an even and an odd frame index are each other's complements, position by position |
| Extraction.GetEntropy | src/main.rs:14-39 | the zip loop with the inline packer returns `bits_to_bytes` of the bit list 1 (brighter) / 0 (darker) / nothing (equal) |
| Extraction.DiffBitsPrefix | src/main.rs:19 | `zip` walks only the first `min(\|current\|, \|previous\|)` positions |
| Extraction.DiffBitsLength | src/main.rs:19-26 | at most one 0/1 bit per compared position |
| Extraction.DiffBitsSwap | src/main.rs:20-23 | swapping the two frames complements every emitted bit and keeps their number |
| Extraction.GetEntropyIdenticalFrames | src/main.rs:24-25 | equal pixels are skipped, so two identical frames give no output |
| Extraction.DiffBitsUniform | src/main.rs:20-23 | an all-brighter (all-darker) pair of frames emits one 1 (0) per compared position |
| Extraction.GetEntropyUniform | src/main.rs:14-39 | an all-brighter (all-darker) pair of frames gives `min/8` bytes of 0xFF (0x00) |
| Whitening.Whiten | src/core.rs:98-123 | the nested loops with the inline packer return `bits_to_bytes(VonNeumann(bits of the input))` (the same code is at src/lib.rs:91-125 and src/main.rs:42-76) |
| Whitening.WhitenByte | src/core.rs:107-120 | the inner loop over `i = 0, 2, 4, 6` appends exactly the von Neumann bits of one byte to the packed stream, keeping `Packed` |
| Whitening.WhitenPair | src/lib.rs:104-120 | the `match`: 01 pushes 0, 10 pushes 1, 00 and 11 push nothing, then flush at eight |
| Whitening.ByteBitsPairs | src/main.rs:49-51 | `bit1 = (byte >> (7-i)) & 1` and `bit2 = (byte >> (6-i)) & 1` are the next pair of the MSB-first bit stream |
| Whitening.UnpackStep | src/core.rs:106 | the bits of one input byte are whitened before those of the bytes after it |
| Whitening.VonNeumannAppend | src/lib.rs:99-122 | pairs never straddle a byte, so whitening distributes over the bytes; the output byte carries across input bytes |
| Whitening.VonNeumannShape | src/core.rs:110-113 | at most one output bit per pair, each 0 or 1 |
| Whitening.WhitenedLength | src/core.rs:102 | the output is at most half the input length (the source reserves `entropy.len() / 2`) |
| Whitening.VonNeumannCount | src/core.rs:110-114 | the number of kept bits is the number of 01/10 pairs |
| Whitening.WhitenedCount | src/core.rs:115-122 | the output length is the number of 01/10 pairs divided by 8, so a trailing partial byte is dropped |
| Whitening.VonNeumannFlip | src/main.rs:54-63 | complementing every input bit complements every output bit |
| Whitening.FlipAppend | src/main.rs:54-63 | complementing distributes over concatenation |
| Whitening.VonNeumannConstant | src/core.rs:113 | a constant bit stream has only 00 or 11 pairs and whitens to nothing |
| Whitening.WhitenedFlat | src/core.rs:98-123 | an all-0x00 or all-0xFF input gives an empty output |
| Whitening.UnpackConstant | src/core.rs:108-109 | an all-0x00 (all-0xFF) buffer reads as all-0 (all-1) bits |
| Whitening.VonNeumannAlternating | src/main.rs:54-63 | 0x55 bytes give four 0 bits each, 0xAA bytes four 1 bits each |
| Whitening.AlternatingByte | src/main.rs:50-63 | the four pairs of 0x55 are all 01, and those of 0xAA all 10 |
| Whitening.WhitenedAlternating | src/main.rs:42-76 | an all-0x55 (all-0xAA) input whitens to `\|input\|/2` bytes of 0x00 (0xFF) |
| Quality.IsCovered | src/core.rs:125-134 | `is_covered` holds iff the number of distinct values is below `threshold` (the same code is at src/lib.rs:127-136 and src/main.rs:105-108) |
| Quality.DistinctCons | src/core.rs:131 | the distinct values of a frame are its first value joined with those of the rest |
| Quality.DistinctBound | src/core.rs:131 | a frame has at most as many distinct values as pixels |
| Quality.DistinctConstant | src/lib.rs:133 | a flat frame has one distinct value (none when empty) |
| Quality.FlatFrameCovered | src/lib.rs:133-135 | a flat frame is covered iff `threshold` exceeds its distinct count, in both directions |
| Quality.DistinctInjective | src/main.rs:106 | a frame of pairwise-different values has one distinct value per pixel |
| Quality.VariedFrameNotCovered | src/main.rs:106-107 | a frame with at least `threshold` pairwise-different values is not covered |
| Quality.Histogram | src/core.rs:84-90 | the `entry(byte).or_insert(0) += 1` loop, with its early return on empty input, builds a map whose keys are the values present; each count is that value's number of occurrences, the counts sum to `n`, and there is one key per distinct value |
| Quality.HistogramStep | src/core.rs:88-89 | counting one more byte keeps the map an exact histogram |
| Quality.TotalIncrement | src/lib.rs:81-83 | one increment raises the total count by exactly one |
| Quality.OccurrencesAbsent | src/main.rs:83-84 | a value not present has no occurrences |
| Quality.HistogramIsCoverage | src/core.rs:84-90 | the number of keys of the frequency map decides `is_covered`: covered iff it is below `threshold` |
| Quality.RequiredFrames | src/main.rs:94-102 | when `width*height/8 > 0`, `ceil(bytes/max_bytes) + 1` is at least 1, covers `bytes` with one frame to spare, and is the least such count |
| Quality.CeilDiv | src/main.rs:101 | `(bytes + m - 1) / m` is the ceiling of `bytes / m` |
| Ffi.CopyInto | src/lib.rs:156-160 | `copy_from_slice` writes `result` into the first `result.len()` cells of the buffer and nothing else |
| Ffi.ExportChopAndTack | src/lib.rs:139-161 | the export writes the `chop_and_tack` result of the inputs as they were on entry, sets `result_len` to its length, and leaves the rest of the buffer unchanged |
| Ffi.ChopCapacity | src/lib.rs:154-158 | a result buffer of `current_len / 8` bytes always suffices |
| Ffi.ExportPickAndFlip | src/lib.rs:163-183 | the same copy and length contract for `pick_and_flip` |
| Ffi.ExportWhiten | src/lib.rs:194-211 | the same copy and length contract for `whiten` |
| Ffi.ExportIsCovered | src/lib.rs:213-219 | the export returns `is_covered` of the viewed slice |
| DiffHarvest.Harvest | src/main.rs:154-193 | either the frames ran out before the pool ever reached `length`, or the loop stopped after the first frame count at which it did; then the pool, whitened when `-w` is given and never truncated, is the output, and its first `min(len, length)` bytes are rendered |
| DiffHarvest.Collect | src/main.rs:158-182 | the `while` loop stops at the first frame count whose pool holds `length` bytes, and fails only if no count up to the end of the frames reaches it |
| DiffHarvest.Round | src/main.rs:169-179 | a chunk is appended whole iff its score is at least 4.0; otherwise the pool is unchanged |
| DiffHarvest.Finish | src/main.rs:184-193 | whitening is applied once to the whole pool after the loop, and the rendering takes its first `length` bytes |
| DiffHarvest.PoolAfterStep | src/main.rs:169-181 | each round compares the new frame with the previous one (the first capture for round 0) and adds the kept chunk at the end |
| DiffHarvest.PoolAfterPrefix | src/main.rs:172-173 | the pool only grows at its end: an earlier pool is a prefix of every later one |
| DiffHarvest.Take | src/main.rs:189-193 | the rendering has `min(len, length)` bytes and is a prefix of the output |
| DiffHarvest.RenderedWhitened | src/main.rs:184-191 | with whitening the rendering has at most half the pool's bytes, so it can be shorter than `length` |
| GridHarvest.Round | src/bin/main.rs:66-110 | one loop iteration, written as the source does it, equals the round function `Step` |
| GridHarvest.Harvest | src/bin/main.rs:60-114 | the run fails iff a round fails (capture or resolution); otherwise the pool holds at least `length` bytes and the result is exactly its first `length` bytes |
| GridHarvest.StepConsumes | src/bin/main.rs:68-89 | every round that does not fail reads one or two frames (`next` grows by 1 or 2, never past the end), so the loop advances through the frames |
| GridHarvest.StepWarmUp | src/bin/main.rs:71-72 | while `frame_count <= 30` a round consumes one frame, increments the counter and extracts nothing |
| GridHarvest.WarmUpSkips | src/bin/main.rs:68-72 | from a counter of 0 (start or reset) exactly 31 frames are skipped before any extraction |
| GridHarvest.StepCountBound | src/bin/main.rs:71-92 | the counter never exceeds 31 |
| GridHarvest.StepAfterWarmUp | src/bin/main.rs:73-110 | after warm-up the counter is never incremented: it stays, or drops to 0 on an uncovered frame |
| GridHarvest.UncoveredResets | src/bin/main.rs:77-93 | an uncovered frame in grid mode resets the counter to 0, consumes one frame, and keeps the `[0]` chunk, which changes the pool only if `[0]` itself scores 7.9 |
| GridHarvest.QuickNeverFlips | src/bin/main.rs:79-81 | quick mode extracts at counter 31, which is odd, so `pick_and_flip` never flips |
| GridHarvest.StepPool | src/bin/main.rs:96-108 | a round appends one whole chunk that scored at least 7.9, or leaves the pool unchanged |
| GridHarvest.RunExtends | src/bin/main.rs:66-114 | the final pool extends every intermediate pool and holds at least `length` bytes, so the truncated result is a prefix of the pool |

## Left out

- Camera access is not modelled: `VideoCapture`, `cam.set` / `cam.read`, `cvt_color`, and the v4l `Device` and `MmapStream`. This is device I/O; frames are a supplied finite sequence.
- `frame_to_grayscale` (image decoding) is not modelled. It is a foreign library call; frames arrive already decoded to grayscale.
- The user-facing I/O is not modelled: argument parsing, the stdin prompt, the timestamped file, the hex formatting, the console messages and `Instant` timing.
- The floating-point `log2` sum of every `shannon` is not modelled. Only its integer frequency map is (`Quality.Histogram`). The loops take the score as an arbitrary function, and the `shannon` export (src/lib.rs:186-192) is left out with it.
- Quality.Histogram: the map is keyed by the byte's numeric value (`map<int, nat>`), not by the `u8` itself.
- Raw-pointer validity in the exports is not modelled. The source checks neither null pointers nor buffer sizes. A caller buffer becomes an array that the caller must make long enough, so a too-small buffer is excluded by a `requires`.
- include/ocelli.h is not part of this model. It holds declarations only.
- Extraction.CompareBit: the debug-build panic on `0u8 - 1` when `c < p` is not modelled. The model follows the release build, where it wraps to 255.
- Extraction.ChopAndTackPanicking: the `height - 100` subtraction in `usize` is not modelled separately. It panics in a debug build when `height < 100`. In a release build it wraps, and the loop then runs far past the frame. The model requires `height > 200` and `width > 200`, the geometry that neither wraps nor panics. GridHarvest.Step treats every other geometry as the panic (`ResolutionTooSmall`), including the wrapping `height < 100`.
- Extraction.ChopAndTack: `width > 0` is required, because the source divides by `width` (src/core.rs:29) before any check. `minimum_distance > 0` is required only when the geometry is accepted. Only then is `step_by(minimum_distance)` (src/core.rs:47) reached, and it panics on 0.
- Extraction.ChopAndTackPanicking: `minimum_distance > 0` is required, because the only path of src/lib.rs that does not panic reaches `step_by(minimum_distance)` (src/lib.rs:39).
- `usize` overflow is not modelled, because integers here are unbounded. It concerns `row * width`, `width * height` and `bytes + max_bytes - 1`.
- Quality.RequiredFrames: the source's panic on a zero pixel budget is modelled as a precondition. Its result is only reported by the source, so the loop model ignores it.
- GridHarvest.Round: the quick-mode call at src/bin/main.rs:81 does not compile as written. It is modelled as `whiten(pick_and_flip(frame, low, high, frame_count))`, with `low` and `high` as parameters of the run.
