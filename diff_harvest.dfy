/**
 * The harvesting loop of the OpenCV command-line tool (`src/main.rs`):
 * every new frame is compared with the one before it by `get_entropy`, the
 * chunk is kept whole when its Shannon score reaches 4.0, and frames are
 * pulled until the pool holds the requested number of bytes.  The pool is
 * then optionally whitened and its first `length` bytes are rendered.
 *
 * The camera becomes the first frame plus a finite sequence of further
 * frames; reading past its end is the failing `cam.read(...)?`.  The
 * Shannon entropy becomes an arbitrary score function.
 */
module DiffHarvest {
  import opened Packing
  import opened Extraction
  import opened Whitening
  import opened Quality

  /** The Shannon entropy a chunk needs to be kept. */
  const ShannonFloor: real := 4.0

  /** The frame that frame `k` is compared with: the one before it, or the first capture. */
  function Previous(first: seq<bv8>, frames: seq<seq<bv8>>, k: nat): seq<bv8>
    requires k < |frames|
  {
    if k == 0 then first else frames[k - 1]
  }

  /** The chunk `get_entropy` extracts from frame `k`. */
  function ChunkAt(first: seq<bv8>, frames: seq<seq<bv8>>, k: nat): seq<bv8>
    requires k < |frames|
  {
    BitsToBytes(DiffBits(frames[k], Previous(first, frames, k)))
  }

  /** The chunks of the frames, in order. */
  function Chunks(first: seq<bv8>, frames: seq<seq<bv8>>): (r: seq<seq<bv8>>)
    ensures |r| == |frames|
    ensures forall k :: 0 <= k < |frames| ==> r[k] == ChunkAt(first, frames, k)
  {
    seq(|frames|, k requires 0 <= k < |frames| => ChunkAt(first, frames, k))
  }

  /** What a chunk adds to the pool: all of it when its score reaches the floor, else nothing. */
  function Kept(chunk: seq<bv8>, score: seq<bv8> -> real): seq<bv8> {
    if score(chunk) >= ShannonFloor then chunk else []
  }

  /** The pool after the first `n` chunks have been offered. */
  function PoolOf(chunks: seq<seq<bv8>>, n: nat, score: seq<bv8> -> real): seq<bv8>
    requires n <= |chunks|
  {
    if n == 0 then [] else PoolOf(chunks, n - 1, score) + Kept(chunks[n - 1], score)
  }

  /** The pool after the first `n` frames have gone round the loop. */
  function PoolAfter(first: seq<bv8>, frames: seq<seq<bv8>>, n: nat, score: seq<bv8> -> real): seq<bv8>
    requires n <= |frames|
  {
    PoolOf(Chunks(first, frames), n, score)
  }

  /** The first `length` bytes of the output, as the hex rendering takes them. */
  function Take(entropy: seq<bv8>, length: nat): (r: seq<bv8>)
    ensures |r| == Min(|entropy|, length)
    ensures r <= entropy
  {
    entropy[..Min(|entropy|, length)]
  }

  /**
   * The `main` loop and what follows it.  `required_frames` is evaluated
   * for its report only, but panics on a resolution below eight pixels.
   * The coverage check of the first capture only prints a message (its
   * `return` is commented out), so it has no effect here.
   *
   * Either the frames ran out before the pool reached `length` bytes at
   * any point (`ok` false), or the loop stopped after exactly `used`
   * frames: the first count at which the pool reached `length`.
   */
  method Harvest(first: seq<bv8>, frames: seq<seq<bv8>>, length: nat, whitenFlag: bool,
                 width: nat, height: nat, score: seq<bv8> -> real)
    returns (ok: bool, entropy: seq<bv8>, rendered: seq<bv8>, ghost used: nat)
    requires MaxBytes(width, height) > 0
    ensures ok ==> used <= |frames| && |PoolAfter(first, frames, used, score)| >= length
    ensures ok ==> forall m :: 0 <= m < used ==> |PoolAfter(first, frames, m, score)| < length
    ensures ok ==> entropy == (if whitenFlag then Whitened(PoolAfter(first, frames, used, score))
                               else PoolAfter(first, frames, used, score))
    ensures ok ==> rendered == Take(entropy, length)
    ensures !ok ==> forall m :: 0 <= m <= |frames| ==> |PoolAfter(first, frames, m, score)| < length
  {
    var budget := RequiredFrames(length, width, height);
    var totalEntropy;
    ok, totalEntropy, used := Collect(first, frames, length, score);
    if !ok {
      return ok, totalEntropy, [], used;
    }
    entropy, rendered := Finish(totalEntropy, whitenFlag, length);
  }

  /** The `while total_entropy.len() < length` loop: pull frames until the pool is long enough. */
  method Collect(first: seq<bv8>, frames: seq<seq<bv8>>, length: nat, score: seq<bv8> -> real)
    returns (ok: bool, totalEntropy: seq<bv8>, ghost used: nat)
    ensures ok ==> used <= |frames| && totalEntropy == PoolAfter(first, frames, used, score)
    ensures ok ==> |totalEntropy| >= length
    ensures ok ==> ShortBefore(first, frames, used, length, score)
    ensures !ok ==> forall m :: 0 <= m <= |frames| ==> |PoolAfter(first, frames, m, score)| < length
  {
    totalEntropy := [];
    var previousFrame := first;
    var k := 0;
    while |totalEntropy| < length
      invariant k <= |frames|
      invariant totalEntropy == PoolAfter(first, frames, k, score)
      invariant previousFrame == if k == 0 then first else frames[k - 1]
      invariant ShortBefore(first, frames, k, length, score)
      decreases |frames| - k
    {
      ShortBeforeStep(first, frames, k, length, score);
      if k == |frames| {
        return false, totalEntropy, k;
      }
      var currentFrame := frames[k];
      PoolAfterStep(first, frames, k, score);
      totalEntropy := Round(totalEntropy, currentFrame, previousFrame, score);
      previousFrame := currentFrame;
      k := k + 1;
    }
    ok, used := true, k;
  }

  /** After the loop: whiten the whole pool when asked to, then render its first `length` bytes. */
  method Finish(totalEntropy: seq<bv8>, whitenFlag: bool, length: nat) returns (entropy: seq<bv8>, rendered: seq<bv8>)
    ensures entropy == if whitenFlag then Whitened(totalEntropy) else totalEntropy
    ensures rendered == Take(entropy, length)
  {
    entropy := totalEntropy;
    if whitenFlag {
      entropy := Whiten(entropy);
    }
    rendered := Take(entropy, length);
  }

  /** One pass of the loop body: extract, score, and keep the chunk whole or not at all. */
  method Round(totalEntropy: seq<bv8>, currentFrame: seq<bv8>, previousFrame: seq<bv8>, score: seq<bv8> -> real)
    returns (pool: seq<bv8>)
    ensures pool == totalEntropy + Kept(BitsToBytes(DiffBits(currentFrame, previousFrame)), score)
  {
    var entropy := GetEntropy(currentFrame, previousFrame);
    pool := totalEntropy;
    if score(entropy) >= ShannonFloor {
      pool := pool + entropy;
    } else {
      assert pool + [] == pool;
    }
  }

  /** No pool before the first `k` frames had reached `length` bytes. */
  ghost predicate ShortBefore(first: seq<bv8>, frames: seq<seq<bv8>>, k: nat, length: nat, score: seq<bv8> -> real)
    requires k <= |frames|
  {
    forall m :: 0 <= m < k ==> |PoolAfter(first, frames, m, score)| < length
  }

  lemma ShortBeforeStep(first: seq<bv8>, frames: seq<seq<bv8>>, k: nat, length: nat, score: seq<bv8> -> real)
    requires k <= |frames|
    requires ShortBefore(first, frames, k, length, score) && |PoolAfter(first, frames, k, score)| < length
    ensures k < |frames| ==> ShortBefore(first, frames, k + 1, length, score)
    ensures forall m :: 0 <= m <= k ==> |PoolAfter(first, frames, m, score)| < length
  {
  }

  lemma PoolAfterStep(first: seq<bv8>, frames: seq<seq<bv8>>, k: nat, score: seq<bv8> -> real)
    requires k < |frames|
    ensures PoolAfter(first, frames, k + 1, score)
         == PoolAfter(first, frames, k, score) + Kept(BitsToBytes(DiffBits(frames[k], Previous(first, frames, k))), score)
  {
  }

  /** The pool only ever grows at its end: an earlier pool is a prefix of every later one. */
  lemma PoolAfterPrefix(first: seq<bv8>, frames: seq<seq<bv8>>, m: nat, n: nat, score: seq<bv8> -> real)
    requires m <= n <= |frames|
    ensures PoolAfter(first, frames, m, score) <= PoolAfter(first, frames, n, score)
  {
    PoolOfPrefix(Chunks(first, frames), m, n, score);
  }

  lemma {:induction false} PoolOfPrefix(chunks: seq<seq<bv8>>, m: nat, n: nat, score: seq<bv8> -> real)
    requires m <= n <= |chunks|
    ensures PoolOf(chunks, m, score) <= PoolOf(chunks, n, score)
    decreases n - m
  {
    if m < n {
      PoolOfPrefix(chunks, m, n - 1, score);
      PrefixExtend(PoolOf(chunks, m, score), PoolOf(chunks, n - 1, score), Kept(chunks[n - 1], score));
    }
  }

  lemma PrefixExtend(a: seq<bv8>, b: seq<bv8>, c: seq<bv8>)
    requires a <= b
    ensures a <= b + c
  {
    assert (b + c)[..|b|] == b;
  }

  /**
   * With whitening the output has at most half the pool's bytes, so a pool
   * of `length` bytes can render fewer than `length` bytes.
   */
  lemma RenderedWhitened(pool: seq<bv8>, length: nat)
    ensures |Take(Whitened(pool), length)| <= |pool| / 2
  {
    WhitenedLength(pool);
  }
}
