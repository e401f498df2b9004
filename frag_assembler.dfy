// The Linux side of the IPv6/IPv4 fragment assembler (linux/vr_fragment_assembler.c):
// the periodic round-robin scan over the bucket table, which stops once the
// work done in one invocation exceeds a threshold and remembers where to resume;
// the bucket a queued fragment is assembled in; and the per-cpu enqueue guard.
// The number of buckets (VR_ASSEMBLER_BUCKET_COUNT) is not defined in the files
// of this model, so it is a parameter of the table.  The work that
// vr_assembler_table_scan reports for a bucket is an input.

module FragAssembler {
  import opened Base
  import opened Drops

  /** vr_linux_assembler_scan_thresh. */
  const SCAN_THRESH: nat := 1024

  const EINVAL: int := 22

  /** `scanned` is an unsigned int: the running total wraps at 2^32. */
  function AddScanned(scanned: u32, work: u32): u32
  {
    (scanned + work) % 0x1_0000_0000
  }

  /** The bucket visited at step `j` of a scan that starts at `start`. */
  function BucketAt(start: nat, j: nat, count: nat): (b: nat)
    requires count > 0
    ensures b < count
  {
    (start + j) % count
  }

  /** The running total after the first `n` buckets of a scan from `start`. */
  function Scanned(work: seq<u32>, start: nat, n: nat): u32
    requires |work| > 0
  {
    if n == 0 then 0 else AddScanned(Scanned(work, start, n - 1), work[BucketAt(start, n - 1, |work|)])
  }

  /** How many buckets a scan from `start` visits: up to and including the first one after which the total exceeds the threshold, or all of them. */
  function Visits(work: seq<u32>, start: nat, thresh: nat, j: nat): (n: nat)
    requires |work| > 0 && j <= |work|
    ensures j <= n <= |work|
    decreases |work| - j
  {
    if j == |work| then j
    else if Scanned(work, start, j + 1) > thresh then j + 1
    else Visits(work, start, thresh, j + 1)
  }

  /** Visits stops after the first bucket that takes the total over the threshold. */
  lemma {:induction false} VisitsStopsAtFirstExcess(work: seq<u32>, start: nat, thresh: nat, j: nat, e: nat)
    requires |work| > 0 && j <= e < |work|
    requires Scanned(work, start, e + 1) > thresh
    requires forall k | j < k <= e :: Scanned(work, start, k) <= thresh
    ensures Visits(work, start, thresh, j) == e + 1
    decreases e - j
  {
    if j < e {
      VisitsStopsAtFirstExcess(work, start, thresh, j + 1, e);
    }
  }

  /** With the total never over the threshold, Visits covers the whole table. */
  lemma {:induction false} VisitsAllWhenUnder(work: seq<u32>, start: nat, thresh: nat, j: nat)
    requires |work| > 0 && j <= |work|
    requires forall k | j < k <= |work| :: Scanned(work, start, k) <= thresh
    ensures Visits(work, start, thresh, j) == |work|
    decreases |work| - j
  {
    if j < |work| {
      VisitsAllWhenUnder(work, start, thresh, j + 1);
    }
  }

  /** The buckets of one scan are pairwise distinct: no bucket is visited twice in one invocation. */
  lemma BucketsDistinct(start: nat, count: nat, a: nat, b: nat)
    requires count > 0 && start < count && a < b < count
    ensures BucketAt(start, a, count) != BucketAt(start, b, count)
  {
    var x, y := start + a, start + b;
    if x < count {
      DivMod(x, count, 0);
    } else {
      DivMod(x, count, 1);
    }
    if y < count {
      DivMod(y, count, 0);
    } else {
      DivMod(y, count, 1);
    }
  }

  /** Euclidean division is unique: the quotient and remainder are those of any split v == q * d + r. */
  lemma {:induction false} DivModUnique(v: int, d: int, q: int, r: int)
    requires d > 0 && v == q * d + r && 0 <= r < d
    ensures v / d == q && v % d == r
  {
    var q0, r0 := v / d, v % d;
    if q0 < q {
      assert (q - q0) * d == q * d - q0 * d;
      MulAtLeast(q - q0, d);
    } else if q < q0 {
      assert (q0 - q) * d == q0 * d - q * d;
      MulAtLeast(q0 - q, d);
    }
  }

  lemma {:induction false} MulAtLeast(a: int, d: int)
    requires a >= 1 && d > 0
    ensures a * d >= d
    decreases a
  {
    if a > 1 {
      MulAtLeast(a - 1, d);
      assert a * d == (a - 1) * d + d;
    }
  }

  lemma DivMod(v: nat, d: nat, q: nat)
    requires d > 0 && q * d <= v < q * d + d
    ensures v % d == v - q * d
  {
    DivModUnique(v, d, q, v - q * d);
  }

  /** The fragment table's scan state: the saved scan index and the bucket count. */
  class Assembler {
    /** vr_linux_assembler_scan_index. */
    var scanIndex: nat
    /** VR_ASSEMBLER_BUCKET_COUNT. */
    const count: nat

    ghost predicate Valid()
      reads this
    {
      count > 0 && scanIndex < count
    }

    constructor (count: nat)
      requires count > 0
      ensures Valid() && this.count == count && scanIndex == 0
    {
      this.count := count;
      scanIndex := 0;
    }

    /**
     * vr_linux_assembler_table_scan: `work[b]` is the count that scanning
     * bucket b reports (0 for an empty bucket).  Returns the buckets visited,
     * in order, and saves the index to resume from.
     */
    method Scan(work: seq<u32>) returns (visited: seq<nat>)
      requires Valid() && |work| == count
      modifies this
      ensures Valid()
      ensures var n := Visits(work, old(scanIndex), SCAN_THRESH, 0);
              |visited| == n &&
              (forall k | 0 <= k < n :: visited[k] == BucketAt(old(scanIndex), k, count)) &&
              scanIndex == BucketAt(old(scanIndex), n, count)
    {
      var i := scanIndex;
      var j: nat := 0;
      var scanned: u32 := 0;
      visited := [];
      while j < count
        invariant j <= count && scanned == Scanned(work, i, j)
        invariant Visits(work, i, SCAN_THRESH, 0) == Visits(work, i, SCAN_THRESH, j)
        invariant |visited| == j && forall k | 0 <= k < j :: visited[k] == BucketAt(i, k, count)
      {
        var b := (i + j) % count;
        visited := visited + [b];
        scanned := AddScanned(scanned, work[b]);
        if scanned > SCAN_THRESH {
          j := j + 1;
          break;
        }
        j := j + 1;
      }
      scanIndex := (i + j) % count;
    }
  }

  /** A scan whose running total stays within the threshold visits every bucket and comes back to where it started. */
  lemma FullCycleReturns(work: seq<u32>, start: nat)
    requires |work| > 0 && start < |work|
    requires forall k | 0 < k <= |work| :: Scanned(work, start, k) <= SCAN_THRESH
    ensures Visits(work, start, SCAN_THRESH, 0) == |work|
    ensures BucketAt(start, |work|, |work|) == start
  {
    VisitsAllWhenUnder(work, start, SCAN_THRESH, 0);
    DivMod(start + |work|, |work|, 1);
  }

  /** A scan that goes over the threshold first at step e resumes next time just after the bucket of step e. */
  lemma ResumesAfterExcess(work: seq<u32>, start: nat, e: nat)
    requires |work| > 0 && start < |work| && e < |work|
    requires Scanned(work, start, e + 1) > SCAN_THRESH
    requires forall k | 0 < k <= e :: Scanned(work, start, k) <= SCAN_THRESH
    ensures Visits(work, start, SCAN_THRESH, 0) == e + 1
    ensures BucketAt(start, Visits(work, start, SCAN_THRESH, 0), |work|) == (start + e + 1) % |work|
  {
    VisitsStopsAtFirstExcess(work, start, SCAN_THRESH, 0, e);
  }

  /** lh_fragment_sync_assemble: the bucket a fragment with this hash is assembled in. */
  function AssembleBucket(hash: u32, count: nat): (b: nat)
    requires count > 0
    ensures b < count
  {
    hash % count
  }

  /** Hashes that differ by a multiple of the bucket count share a bucket. */
  lemma AssembleBucketPeriodic(hash: u32, count: nat, m: nat)
    requires count > 0 && hash + m * count < 0x1_0000_0000
    ensures AssembleBucket(hash + m * count, count) == AssembleBucket(hash, count)
  {
    var q, r := hash / count, hash % count;
    assert (q + m) * count == q * count + m * count;
    DivModUnique(hash + m * count, count, q + m, r);
  }

  /** What lh_enqueue_to_assembler returns, and the drop it makes, on cpu `cpu` of `numCpus`. */
  function EnqueueToAssembler(cpu: nat, numCpus: nat): (r: (int, Option<DropReason>))
    ensures cpu >= numCpus <==> r == (-EINVAL, Some(Fragments))
    ensures cpu < numCpus <==> r == (0, None)
  {
    if cpu >= numCpus then (-EINVAL, Some(Fragments)) else (0, None)
  }
}
