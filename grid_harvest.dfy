/**
 * The harvesting loop of the v4l command-line tool (`src/bin/main.rs`).
 * Each round takes one frame.  While the frame counter is at most 30 the
 * frame is only counted (warm-up).  After that a chunk is extracted: in
 * quick mode `whiten(pick_and_flip(...))` of the frame; otherwise, when the
 * lens is covered, `chop_and_tack` of this frame and one more, and when it
 * is not covered the chunk stays `[0]` and the counter restarts at 0.  A
 * chunk whose Shannon score reaches 7.9 is appended whole.  When the pool
 * holds `length` bytes it is truncated to exactly `length`.
 *
 * Frames are a finite sequence of already decoded grayscale images; the
 * end of the sequence is the failing `stream.next().expect(...)`.  The
 * Shannon entropy is an arbitrary score function.
 */
module GridHarvest {
  import opened Packing
  import opened Extraction
  import opened Whitening
  import opened Quality

  /** The Shannon entropy a chunk needs to be kept. */
  const ShannonThreshold: real := 7.9
  /** Frames whose counter is at most this value are skipped. */
  const WarmUp: nat := 30
  /** The stride of the sampling grid of `chop_and_tack`. */
  const MinimumDistance: nat := 30

  /** The fixed inputs of a run: quick mode and its range, the frame width, the score. */
  datatype Config = Config(quick: bool, low: bv8, high: bv8, width: nat, score: seq<bv8> -> real)

  /** The loop state: the next unread frame, `frame_count`, and `total_entropy`. */
  datatype State = State(next: nat, frameCount: nat, pool: seq<bv8>)

  /** Why a run stops without a result: the frame stream failed, or `chop_and_tack` panicked. */
  datatype Failure = CaptureFailed | ResolutionTooSmall

  /** Where a round, or a whole run, leaves the loop. */
  datatype Outcome = Advanced(state: State) | Halted(failure: Failure)

  /** The state at the start of `main`'s loop. */
  const Start: State := State(0, 0, [])

  /** The chunk quick mode extracts from `frame`: `whiten(pick_and_flip(frame, low, high, frame_count))`. */
  function QuickChunk(frame: seq<bv8>, cfg: Config, frameCount: nat): seq<bv8> {
    Whitened(BitsToBytes(LsbBits(frame, cfg.low, cfg.high, frameCount)))
  }

  /** The pool after offering `chunk` to the score. */
  function Offer(pool: seq<bv8>, chunk: seq<bv8>, cfg: Config): seq<bv8> {
    if cfg.score(chunk) >= ShannonThreshold then pool + chunk else pool
  }

  /** One iteration of the `while total_entropy.len() < length` body. */
  function Step(frames: seq<seq<bv8>>, st: State, cfg: Config): Outcome {
    if st.next >= |frames| then Halted(CaptureFailed)
    else
      var frame := frames[st.next];
      if st.frameCount <= WarmUp then Advanced(State(st.next + 1, st.frameCount + 1, st.pool))
      else if cfg.quick then
        Advanced(State(st.next + 1, st.frameCount, Offer(st.pool, QuickChunk(frame, cfg, st.frameCount), cfg)))
      else if !IsCovered(frame, CoverThreshold) then
        Advanced(State(st.next + 1, 0, Offer(st.pool, [0], cfg)))
      else if st.next + 1 >= |frames| then Halted(CaptureFailed)
      else if !GridFits(|frame|, cfg.width) then Halted(ResolutionTooSmall)
      else
        var chunk := ChopOutput(frame, frames[st.next + 1], cfg.width, MinimumDistance);
        Advanced(State(st.next + 2, st.frameCount, Offer(st.pool, chunk, cfg)))
  }

  /** A round always consumes at least one frame. */
  lemma StepConsumes(frames: seq<seq<bv8>>, st: State, cfg: Config)
    requires Step(frames, st, cfg).Advanced?
    ensures st.next < Step(frames, st, cfg).state.next <= |frames|
    ensures Step(frames, st, cfg).state.next <= st.next + 2
  {
  }

  /** The loop from state `st` until the pool holds `length` bytes or a round fails. */
  function Run(frames: seq<seq<bv8>>, st: State, length: nat, cfg: Config): Outcome
    decreases |frames| - st.next
  {
    if |st.pool| >= length then Advanced(st)
    else match Step(frames, st, cfg)
      case Halted(f) => Halted(f)
      case Advanced(st') =>
        StepConsumes(frames, st, cfg);
        Run(frames, st', length, cfg)
  }

  /** One round of the loop body, written as the source does it. */
  method Round(frames: seq<seq<bv8>>, st: State, cfg: Config) returns (r: Outcome)
    ensures r == Step(frames, st, cfg)
  {
    if st.next >= |frames| {
      return Halted(CaptureFailed);
    }
    var data1 := frames[st.next];
    var next := st.next + 1;
    var frameCount := st.frameCount;
    var totalEntropy := st.pool;
    if frameCount <= WarmUp {
      frameCount := frameCount + 1;
    } else {
      var entropy: seq<bv8> := [0];
      if cfg.quick {
        var bits := PickAndFlip(data1, cfg.low, cfg.high, frameCount);
        entropy := Whiten(bits);
      } else {
        var covered := IsCovered(data1, CoverThreshold);
        if covered {
          if next >= |frames| {
            return Halted(CaptureFailed);
          }
          var data2 := frames[next];
          next := next + 1;
          if !GridFits(|data1|, cfg.width) {
            return Halted(ResolutionTooSmall);
          }
          entropy := ChopAndTackPanicking(data1, data2, cfg.width, MinimumDistance);
        } else {
          frameCount := 0;
        }
      }
      if cfg.score(entropy) >= ShannonThreshold {
        totalEntropy := totalEntropy + entropy;
      }
    }
    r := Advanced(State(next, frameCount, totalEntropy));
  }

  /**
   * `main`'s loop and the final `truncate(length)`: either a round failed
   * (`failure` is set and `entropy` is empty), or the run reached a state
   * whose pool holds at least `length` bytes and `entropy` is its first
   * `length` bytes.
   */
  method Harvest(frames: seq<seq<bv8>>, length: nat, cfg: Config) returns (failed: bool, entropy: seq<bv8>)
    ensures failed <==> Run(frames, Start, length, cfg).Halted?
    ensures !failed ==> |Run(frames, Start, length, cfg).state.pool| >= length
    ensures !failed ==> entropy == Run(frames, Start, length, cfg).state.pool[..length]
  {
    var st := Start;
    while |st.pool| < length
      invariant st.next <= |frames|
      invariant Run(frames, st, length, cfg) == Run(frames, Start, length, cfg)
      decreases |frames| - st.next
    {
      var r := Round(frames, st, cfg);
      if r.Halted? {
        return true, [];
      }
      StepConsumes(frames, st, cfg);
      st := r.state;
    }
    failed := false;
    entropy := st.pool[..length];
  }

  // ---------------------------------------------------------------------
  // Properties of a round and of a run
  // ---------------------------------------------------------------------

  /** The counter never exceeds 31: warm-up counts up to 31 and nothing after it counts further. */
  lemma StepCountBound(frames: seq<seq<bv8>>, st: State, cfg: Config)
    requires st.frameCount <= WarmUp + 1
    requires Step(frames, st, cfg).Advanced?
    ensures Step(frames, st, cfg).state.frameCount <= WarmUp + 1
  {
  }

  /** After warm-up the counter stays at its value, or drops to 0 on an uncovered frame. */
  lemma StepAfterWarmUp(frames: seq<seq<bv8>>, st: State, cfg: Config)
    requires st.frameCount > WarmUp
    requires Step(frames, st, cfg).Advanced?
    ensures var c := Step(frames, st, cfg).state.frameCount; c == st.frameCount || (c == 0 && !cfg.quick)
  {
  }

  /** A round appends a whole chunk that scored at least 7.9, or leaves the pool unchanged. */
  lemma StepPool(frames: seq<seq<bv8>>, st: State, cfg: Config)
    requires Step(frames, st, cfg).Advanced?
    ensures var p := Step(frames, st, cfg).state.pool;
      p == st.pool || exists chunk :: p == st.pool + chunk && cfg.score(chunk) >= ShannonThreshold
  {
    var p := Step(frames, st, cfg).state.pool;
    if p != st.pool {
      var chunk := p[|st.pool|..];
      assert p == st.pool + chunk;
    }
  }

  /** During warm-up a round consumes exactly one frame and extracts nothing. */
  lemma StepWarmUp(frames: seq<seq<bv8>>, st: State, cfg: Config)
    requires st.frameCount <= WarmUp && st.next < |frames|
    ensures Step(frames, st, cfg) == Advanced(State(st.next + 1, st.frameCount + 1, st.pool))
  {
  }

  /** From a counter of 0 (the start, or after a reset), 31 frames are skipped before any extraction. */
  lemma {:induction false} WarmUpSkips(frames: seq<seq<bv8>>, st: State, length: nat, cfg: Config)
    requires st.frameCount <= WarmUp + 1 && |st.pool| < length
    requires st.next + (WarmUp + 1 - st.frameCount) <= |frames|
    ensures Run(frames, st, length, cfg) ==
            Run(frames, State(st.next + (WarmUp + 1 - st.frameCount), WarmUp + 1, st.pool), length, cfg)
    decreases WarmUp + 1 - st.frameCount
  {
    if st.frameCount <= WarmUp {
      StepWarmUp(frames, st, cfg);
      var st' := State(st.next + 1, st.frameCount + 1, st.pool);
      WarmUpSkips(frames, st', length, cfg);
    }
  }

  /** Quick mode extracts at counter 31, which is odd, so `pick_and_flip` never flips a bit. */
  lemma QuickNeverFlips(frame: seq<bv8>, cfg: Config)
    ensures var bits := LsbBits(frame, cfg.low, cfg.high, WarmUp + 1);
            var pixels := InRangePixels(frame, cfg.low, cfg.high);
            |bits| == |pixels| && forall k :: 0 <= k < |bits| ==> bits[k] == pixels[k] & 1
  {
    LsbBitsShape(frame, cfg.low, cfg.high, WarmUp + 1);
  }

  /**
   * An uncovered frame in grid mode restarts the warm-up; its `[0]` chunk
   * changes the pool only if `[0]` itself scores at least 7.9.
   */
  lemma UncoveredResets(frames: seq<seq<bv8>>, st: State, cfg: Config)
    requires st.next < |frames| && st.frameCount > WarmUp && !cfg.quick
    requires !IsCovered(frames[st.next], CoverThreshold)
    ensures Step(frames, st, cfg).Advanced?
    ensures Step(frames, st, cfg).state.frameCount == 0
    ensures Step(frames, st, cfg).state.next == st.next + 1
    ensures cfg.score([0]) < ShannonThreshold ==> Step(frames, st, cfg).state.pool == st.pool
  {
  }

  /** The final pool extends the pool of every state the run passes through. */
  lemma {:induction false} RunExtends(frames: seq<seq<bv8>>, st: State, length: nat, cfg: Config)
    requires Run(frames, st, length, cfg).Advanced?
    ensures st.pool <= Run(frames, st, length, cfg).state.pool
    ensures |Run(frames, st, length, cfg).state.pool| >= length
    decreases |frames| - st.next
  {
    if |st.pool| < length {
      var st' := Step(frames, st, cfg).state;
      StepPool(frames, st, cfg);
      RunExtends(frames, st', length, cfg);
    }
  }
}
