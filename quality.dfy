/**
 * Frame gating and budgeting: the coverage check (`is_covered`), the byte
 * histogram that `shannon` builds before its floating-point sum, and the
 * frame budget `required_frames`.
 */
module Quality {

  /** The set of byte values present in a grayscale frame (the `HashSet` collect). */
  function Distinct(grayscale: seq<bv8>): set<bv8> {
    set x | x in grayscale
  }

  /** `is_covered`: fewer distinct values than `threshold` (recommended 50). */
  predicate IsCovered(grayscale: seq<bv8>, threshold: nat) {
    |Distinct(grayscale)| < threshold
  }

  /** The coverage threshold both harvesting loops pass to `is_covered`. */
  const CoverThreshold: nat := 50

  /** The first value of a frame joins the values of the rest. */
  lemma DistinctCons(grayscale: seq<bv8>)
    requires grayscale != []
    ensures Distinct(grayscale) == {grayscale[0]} + Distinct(grayscale[1..])
  {
    assert forall x :: x in grayscale <==> x == grayscale[0] || x in grayscale[1..];
  }

  /** A frame never has more distinct values than pixels. */
  lemma {:induction false} DistinctBound(grayscale: seq<bv8>)
    ensures |Distinct(grayscale)| <= |grayscale|
    decreases |grayscale|
  {
    if grayscale != [] {
      DistinctCons(grayscale);
      DistinctBound(grayscale[1..]);
    }
  }

  /** A frame of one repeated value has exactly one distinct value (an empty one none). */
  lemma {:induction false} DistinctConstant(grayscale: seq<bv8>, v: bv8)
    requires forall k :: 0 <= k < |grayscale| ==> grayscale[k] == v
    ensures |Distinct(grayscale)| == if grayscale == [] then 0 else 1
    decreases |grayscale|
  {
    if grayscale != [] {
      DistinctCons(grayscale);
      DistinctConstant(grayscale[1..], v);
      if grayscale[1..] != [] {
        assert grayscale[1..][0] in Distinct(grayscale[1..]);
        assert Distinct(grayscale[1..]) == {v} by {
          forall x | x in Distinct(grayscale[1..]) ensures x == v { }
        }
      }
    }
  }

  /** A flat frame (a lens cap over the sensor) counts as covered for every threshold above 1. */
  lemma FlatFrameCovered(grayscale: seq<bv8>, v: bv8, threshold: nat)
    requires forall k :: 0 <= k < |grayscale| ==> grayscale[k] == v
    ensures IsCovered(grayscale, threshold) <==> threshold > (if grayscale == [] then 0 else 1)
  {
    DistinctConstant(grayscale, v);
  }

  /** Pixels that are pairwise different are as many distinct values. */
  lemma {:induction false} DistinctInjective(grayscale: seq<bv8>)
    requires forall i, j :: 0 <= i < j < |grayscale| ==> grayscale[i] != grayscale[j]
    ensures |Distinct(grayscale)| == |grayscale|
    decreases |grayscale|
  {
    if grayscale != [] {
      DistinctCons(grayscale);
      DistinctInjective(grayscale[1..]);
      forall j | 0 <= j < |grayscale[1..]| ensures grayscale[1..][j] != grayscale[0] {
        assert grayscale[1..][j] == grayscale[j + 1];
      }
    }
  }

  /** A frame showing at least `threshold` pairwise different values is not covered. */
  lemma VariedFrameNotCovered(grayscale: seq<bv8>, threshold: nat)
    requires forall i, j :: 0 <= i < j < |grayscale| ==> grayscale[i] != grayscale[j]
    requires |grayscale| >= threshold
    ensures !IsCovered(grayscale, threshold)
  {
    DistinctInjective(grayscale);
  }

  // ---------------------------------------------------------------------
  // The integer histogram of `shannon`
  // ---------------------------------------------------------------------
  // A `HashMap<u8, usize>` keyed by byte; the model keys it by the byte's
  // numeric value `b as int`.

  /** The count the histogram holds for key `v` (absent keys count 0). */
  function CountOf(freq: map<int, nat>, v: int): nat {
    if v in freq then freq[v] else 0
  }

  /** How many times the value `b` occurs in `data`. */
  function Occurrences(data: seq<bv8>, b: bv8): nat
    decreases |data|
  {
    if data == [] then 0
    else Occurrences(data[..|data| - 1], b) + (if data[|data| - 1] == b then 1 else 0)
  }

  /** Some key of a non-empty histogram. */
  ghost function AnyKey(freq: map<int, nat>): (k: int)
    requires exists j :: j in freq
    ensures k in freq
  {
    var j :| j in freq; j
  }

  /** The sum of all counts of a histogram. */
  ghost function Total(freq: map<int, nat>): nat
    decreases |freq.Keys|
  {
    if forall j :: j !in freq then 0
    else
      var k := AnyKey(freq);
      var rest := freq - {k};
      assert rest.Keys == freq.Keys - {k};
      var count: nat := freq[k];
      count + Total(rest)
  }

  /** The total can be split at any key, whichever key `Total` happens to pick first. */
  lemma {:induction false} TotalRemove(freq: map<int, nat>, k: int)
    requires k in freq
    ensures Total(freq) == freq[k] + Total(freq - {k})
    decreases |freq.Keys|
  {
    var first := AnyKey(freq);
    var rest := freq - {first};
    assert rest.Keys == freq.Keys - {first};
    assert Total(freq) == freq[first] + Total(rest);
    if first != k {
      var others := freq - {k};
      assert others.Keys == freq.Keys - {k};
      TotalRemove(rest, k);
      TotalRemove(others, first);
      assert rest - {k} == others - {first};
    }
  }

  /** `entry(b).or_insert(0) += 1` raises the total by one. */
  lemma TotalIncrement(freq: map<int, nat>, v: int)
    ensures Total(freq[v := CountOf(freq, v) + 1]) == Total(freq) + 1
  {
    var next := freq[v := CountOf(freq, v) + 1];
    TotalRemove(next, v);
    if v in freq {
      TotalRemove(freq, v);
      assert next - {v} == freq - {v};
    } else {
      assert next - {v} == freq;
    }
  }

  /**
   * `freq` is the histogram of `data`: a key for exactly the values
   * present, each value's count is its number of occurrences, the counts
   * sum to `|data|`, and there are as many keys as distinct values.
   */
  ghost predicate HistogramOf(freq: map<int, nat>, data: seq<bv8>) {
    && (forall b: bv8 :: (b as int in freq) <==> b in data)
    && (forall v :: v in freq ==> 0 <= v < 256)
    && (forall b: bv8 :: b in data ==> freq[b as int] == Occurrences(data, b))
    && Total(freq) == |data|
    && |freq| == |Distinct(data)|
  }

  /**
   * The frequency map of `shannon`: one `entry(byte).or_insert(0) += 1`
   * per byte; `core.rs` returns before the loop on an empty input.
   */
  method Histogram(data: seq<bv8>) returns (freq: map<int, nat>)
    ensures HistogramOf(freq, data)
  {
    freq := map[];
    EmptyHistogram(data);
    if |data| == 0 {
      return;
    }
    for i := 0 to |data|
      invariant HistogramOf(freq, data[..i])
    {
      var byte := data[i];
      HistogramStep(freq, data, i);
      freq := freq[byte as int := CountOf(freq, byte as int) + 1];
    }
    assert data[..|data|] == data;
  }

  /** The empty map is the histogram of no bytes. */
  lemma EmptyHistogram(data: seq<bv8>)
    ensures HistogramOf(map[], data[..0])
  {
    assert data[..0] == [];
  }

  /** Counting one more byte keeps the histogram exact. */
  lemma HistogramStep(freq: map<int, nat>, data: seq<bv8>, i: nat)
    requires i < |data|
    requires HistogramOf(freq, data[..i])
    ensures HistogramOf(freq[data[i] as int := CountOf(freq, data[i] as int) + 1], data[..i + 1])
  {
    var before, after, byte := data[..i], data[..i + 1], data[i];
    assert after == before + [byte];
    var next := freq[byte as int := CountOf(freq, byte as int) + 1];
    TotalIncrement(freq, byte as int);
    StepKeys(freq, next, before, after, byte);
    StepCounts(freq, next, before, after, byte);
    StepSize(freq, next, before, after, byte);
  }

  lemma StepKeys(freq: map<int, nat>, next: map<int, nat>, before: seq<bv8>, after: seq<bv8>, byte: bv8)
    requires after == before + [byte] && next == freq[byte as int := CountOf(freq, byte as int) + 1]
    requires forall b: bv8 :: (b as int in freq) <==> b in before
    ensures forall b: bv8 :: (b as int in next) <==> b in after
  {
    forall b: bv8 ensures (b as int in next) <==> b in after {
      StepKey(freq, next, before, after, byte, b);
    }
  }

  lemma StepKey(freq: map<int, nat>, next: map<int, nat>, before: seq<bv8>, after: seq<bv8>, byte: bv8, b: bv8)
    requires after == before + [byte] && next == freq[byte as int := CountOf(freq, byte as int) + 1]
    requires (b as int in freq) <==> b in before
    ensures (b as int in next) <==> b in after
  {
    assert (b as int == byte as int) <==> (b == byte);
    assert (b in after) <==> (b in before || b == byte);
  }

  lemma StepCounts(freq: map<int, nat>, next: map<int, nat>, before: seq<bv8>, after: seq<bv8>, byte: bv8)
    requires after == before + [byte] && next == freq[byte as int := CountOf(freq, byte as int) + 1]
    requires forall b: bv8 :: (b as int in freq) <==> b in before
    requires forall b: bv8 :: b in before ==> freq[b as int] == Occurrences(before, b)
    ensures forall b: bv8 :: b in after ==> b as int in next && next[b as int] == Occurrences(after, b)
  {
    forall b: bv8 | b in after ensures b as int in next && next[b as int] == Occurrences(after, b) {
      OccurrencesSnoc(before, byte, b);
      if b == byte {
        if b !in before {
          OccurrencesAbsent(before, b);
        }
      } else {
        assert b as int != byte as int;
        assert b in before;
      }
    }
  }

  lemma StepSize(freq: map<int, nat>, next: map<int, nat>, before: seq<bv8>, after: seq<bv8>, byte: bv8)
    requires after == before + [byte] && next == freq[byte as int := CountOf(freq, byte as int) + 1]
    requires forall b: bv8 :: (b as int in freq) <==> b in before
    requires |freq| == |Distinct(before)|
    ensures |next| == |Distinct(after)|
  {
    assert Distinct(after) == Distinct(before) + {byte};
    if byte as int in freq {
      assert next.Keys == freq.Keys;
      assert byte in Distinct(before);
    } else {
      assert next.Keys == freq.Keys + {byte as int};
      assert byte !in Distinct(before);
    }
  }

  /** Appending a byte adds one occurrence of its value and none of any other. */
  lemma OccurrencesSnoc(data: seq<bv8>, byte: bv8, b: bv8)
    ensures Occurrences(data + [byte], b) == Occurrences(data, b) + (if byte == b then 1 else 0)
  {
    assert (data + [byte])[..|data|] == data;
  }

  /** A value that does not occur has no occurrences. */
  lemma {:induction false} OccurrencesAbsent(data: seq<bv8>, b: bv8)
    requires b !in data
    ensures Occurrences(data, b) == 0
    decreases |data|
  {
    if data != [] {
      assert data[..|data| - 1] <= data;
      OccurrencesAbsent(data[..|data| - 1], b);
    }
  }

  /** The histogram's key count is what `is_covered` compares with the threshold. */
  lemma HistogramIsCoverage(data: seq<bv8>, freq: map<int, nat>, threshold: nat)
    requires |freq| == |Distinct(data)|
    ensures IsCovered(data, threshold) <==> |freq| < threshold
  {
  }

  // ---------------------------------------------------------------------
  // The frame budget of `required_frames`
  // ---------------------------------------------------------------------

  /** How many bytes one frame of `width * height` pixels may yield. */
  function MaxBytes(width: nat, height: nat): nat {
    width * height / 8
  }

  /**
   * `required_frames`: `ceil(bytes / max_bytes) + 1` frames; the source
   * panics when `max_bytes` is 0.  The result is the least `r >= 1` with
   * `(r - 1) * max_bytes >= bytes`.
   */
  function RequiredFrames(bytes: nat, width: nat, height: nat): (r: nat)
    requires MaxBytes(width, height) > 0
    ensures r >= 1
    ensures (r - 1) * MaxBytes(width, height) >= bytes
    ensures r == 1 || (r - 2) * MaxBytes(width, height) < bytes
  {
    var m := MaxBytes(width, height);
    CeilDiv(bytes, m);
    (bytes + m - 1) / m + 1
  }

  /** `(bytes + m - 1) / m` is the least `q` with `q * m >= bytes`. */
  lemma CeilDiv(bytes: nat, m: nat)
    requires m > 0
    ensures ((bytes + m - 1) / m) * m >= bytes
    ensures (bytes + m - 1) / m == 0 || ((bytes + m - 1) / m - 1) * m < bytes
  {
    var q := (bytes + m - 1) / m;
    var rem := (bytes + m - 1) % m;
    assert q * m + rem == bytes + m - 1;
    assert 0 <= rem < m;
  }
}
