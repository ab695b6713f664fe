/** Splitting a range of rows into half-open chunks for the workers: the
    dynamic split of the optimized variant (calculateOptimalChunkSize,
    createWorkChunks), the static per-thread split of the original variant, and
    the thread-count selection both share. */
module Partition {
  import opened Native
  import Geometry

  /** A half-open row range [start, stop) handed to one worker. */
  datatype Chunk = Chunk(start: int, stop: int) {

    predicate Contains(y: int) {
      start <= y < stop
    }

    /** Every row the worker visits (none when start >= stop) lies in [lo, hi). */
    predicate Within(lo: int, hi: int) {
      start >= stop || (lo <= start && stop <= hi)
    }
  }

  /** Row `y` is visited by some chunk of `cs`. */
  predicate Covered(cs: seq<Chunk>, y: int)
    decreases |cs|
  {
    |cs| > 0 && (cs[|cs| - 1].Contains(y) || Covered(cs[..|cs| - 1], y))
  }

  /** `cs` lists consecutive ranges, in order, that together are [lo, hi). */
  predicate Tiles(cs: seq<Chunk>, lo: int, hi: int) {
    if cs == [] then lo == hi
    else
      && cs[0].start == lo
      && cs[|cs| - 1].stop == hi
      && (forall i :: 0 <= i < |cs| ==> cs[i].start <= cs[i].stop)
      && (forall i :: 0 <= i < |cs| - 1 ==> cs[i].stop == cs[i + 1].start)
  }

  lemma CoveredSnoc(cs: seq<Chunk>, i: int, y: int)
    requires 0 <= i < |cs|
    ensures Covered(cs[..i + 1], y) <==> Covered(cs[..i], y) || cs[i].Contains(y)
  {
    assert cs[..i + 1][..i] == cs[..i];
  }

  lemma TilesInit(cs: seq<Chunk>, lo: int, hi: int)
    requires |cs| >= 2 && Tiles(cs, lo, hi)
    ensures Tiles(cs[..|cs| - 1], lo, cs[|cs| - 1].start)
  {
    var n := |cs|;
    assert cs[n - 2].stop == cs[n - 1].start;
  }

  /** Every row of [lo, hi) is visited by a worker. */
  lemma {:induction false} TilesCover(cs: seq<Chunk>, lo: int, hi: int, y: int)
    requires Tiles(cs, lo, hi) && lo <= y < hi
    ensures Covered(cs, y)
    decreases |cs|
  {
    var n := |cs|;
    if !cs[n - 1].Contains(y) {
      if n == 1 {
        assert false;
      } else {
        TilesInit(cs, lo, hi);
        TilesCover(cs[..n - 1], lo, cs[n - 1].start, y);
      }
    }
  }

  /** The chunks of a tiling lie inside [lo, hi). */
  lemma {:induction false} TilesWithin(cs: seq<Chunk>, lo: int, hi: int)
    requires Tiles(cs, lo, hi)
    ensures forall i :: 0 <= i < |cs| ==> lo <= cs[i].start <= cs[i].stop <= hi
    decreases |cs|
  {
    var n := |cs|;
    if n >= 2 {
      TilesInit(cs, lo, hi);
      TilesWithin(cs[..n - 1], lo, cs[n - 1].start);
      forall i | 0 <= i < n
        ensures lo <= cs[i].start <= cs[i].stop <= hi
      {
        if i < n - 1 {
          assert cs[..n - 1][i] == cs[i];
        }
      }
    }
  }

  /** A later chunk starts no earlier than an earlier chunk stops. */
  lemma {:induction false} TilesOrdered(cs: seq<Chunk>, lo: int, hi: int, i: int, j: int)
    requires Tiles(cs, lo, hi) && 0 <= i < j < |cs|
    ensures cs[i].stop <= cs[j].start
    decreases j - i
  {
    if j > i + 1 {
      TilesOrdered(cs, lo, hi, i + 1, j);
    }
  }

  /** No row is visited by two chunks of a tiling, so workers write disjoint
      rows. */
  lemma TilesDisjoint(cs: seq<Chunk>, lo: int, hi: int, i: int, j: int, y: int)
    requires Tiles(cs, lo, hi) && 0 <= i < |cs| && 0 <= j < |cs|
    requires cs[i].Contains(y) && cs[j].Contains(y)
    ensures i == j
  {
    if i < j {
      TilesOrdered(cs, lo, hi, i, j);
    } else if j < i {
      TilesOrdered(cs, lo, hi, j, i);
    }
  }

  /** Every row of [lo, hi) is visited by some chunk. */
  predicate RowsCovered(cs: seq<Chunk>, lo: int, hi: int) {
    forall y :: lo <= y < hi ==> Covered(cs, y)
  }

  /** No chunk visits a row outside [lo, hi). */
  predicate AllWithin(cs: seq<Chunk>, lo: int, hi: int) {
    forall i :: 0 <= i < |cs| ==> cs[i].Within(lo, hi)
  }

  /** A tiling of [lo, hi) is what the chunk runners need: it covers every
      row and stays inside the range. */
  lemma TilingCovers(cs: seq<Chunk>, lo: int, hi: int)
    requires Tiles(cs, lo, hi)
    ensures RowsCovered(cs, lo, hi) && AllWithin(cs, lo, hi)
  {
    TilesWithin(cs, lo, hi);
    forall y | lo <= y < hi
      ensures Covered(cs, y)
    {
      TilesCover(cs, lo, hi, y);
    }
  }

  /** The worker count of the parallel methods: a requested count <= 0 means
      the hardware concurrency, or 4 when that is reported as 0. */
  function ThreadCount(requested: int, hardware: nat): (n: int)
    ensures n >= 1
    ensures requested >= 1 ==> n == requested
    ensures requested <= 0 && hardware >= 1 ==> n == hardware
    ensures requested <= 0 && hardware == 0 ==> n == 4
  {
    if requested <= 0 then (if hardware == 0 then 4 else hardware) else requested
  }

  lemma QuarterQuotient(a: int, n: int)
    ensures a >= 0 && n >= 1 ==> a / (4 * n) <= a / n
  {
    if a >= 0 && n >= 1 {
      QuarterQuotientNonNeg(a, n);
    }
  }

  lemma QuarterQuotientNonNeg(a: int, n: int)
    requires a >= 0 && n >= 1
    ensures a / (4 * n) <= a / n
  {
    var d := 4 * n;
    var q, r := a / d, a / n;
    assert a == q * d + a % d && 0 <= a % d;
    assert a == r * n + a % n && a % n < n;
    if q > r {
      Geometry.MulLeft(r + 1, q, n);
      Geometry.MulLeft(0, q, n);
      FourTimes(q, n);
      assert false;
    }
  }

  lemma FourTimes(q: int, n: int)
    ensures q * (4 * n) == 4 * (q * n)
  {
  }

  /** calculateOptimalChunkSize: max(1, min(T / n, T / (4n))) with C++
      division; for T >= 0 and n >= 1 the quarter share is the smaller. */
  function OptimalChunkSize(totalWork: int, numThreads: int): (r: int)
    requires numThreads != 0
    ensures r >= 1
    ensures totalWork >= 0 && numThreads >= 1 ==> r == Max(1, totalWork / (4 * numThreads))
  {
    QuarterQuotient(totalWork, numThreads);
    Max(1, Min(TruncDiv(totalWork, numThreads), TruncDiv(totalWork, numThreads * 4)))
  }

  /** Number of chunks of `chunkSize` rows needed for `totalWork` rows. */
  function ChunkCount(totalWork: int, chunkSize: int): int
    requires chunkSize >= 1
  {
    if totalWork <= 0 then 0 else (totalWork + chunkSize - 1) / chunkSize
  }

  /** The i-th chunk of the walk over [0, totalWork) in steps of chunkSize. */
  function ChunkAt(totalWork: int, chunkSize: int, i: int): Chunk {
    Chunk(i * chunkSize, Min((i + 1) * chunkSize, totalWork))
  }

  /** The walk in steps of `chunkSize` tiles [0, T) with non-empty chunks of at
      most `chunkSize` rows. */
  lemma {:induction false} StepsTile(totalWork: int, chunkSize: int, cs: seq<Chunk>)
    requires totalWork > 0 && chunkSize >= 1
    requires |cs| == ChunkCount(totalWork, chunkSize)
    requires forall i :: 0 <= i < |cs| ==> cs[i] == ChunkAt(totalWork, chunkSize, i)
    ensures Tiles(cs, 0, totalWork)
    ensures forall i :: 0 <= i < |cs| ==> 1 <= cs[i].stop - cs[i].start <= chunkSize
  {
    var n := |cs|;
    var m := totalWork + chunkSize - 1;
    assert m == n * chunkSize + m % chunkSize;
    assert (n - 1) * chunkSize < totalWork <= n * chunkSize;
    assert n >= 1;
    forall i | 0 <= i < n
      ensures i * chunkSize < totalWork
    {
      Geometry.MulLeft(i, n - 1, chunkSize);
    }
    assert cs[n - 1].stop == totalWork;
  }

  lemma NextStart(n: int, c: int)
    ensures (n + 1) * c == n * c + c
  {
  }

  /** createWorkChunks: walks [0, totalWork) in steps of the optimal chunk
      size, the last chunk clipped at totalWork. */
  method CreateWorkChunks(totalWork: int, numThreads: int) returns (chunks: seq<Chunk>)
    requires numThreads != 0
    ensures var size := OptimalChunkSize(totalWork, numThreads);
            && |chunks| == ChunkCount(totalWork, size)
            && (forall i :: 0 <= i < |chunks| ==> chunks[i] == ChunkAt(totalWork, size, i))
            && (forall i :: 0 <= i < |chunks| ==> 1 <= chunks[i].stop - chunks[i].start <= size)
    ensures totalWork <= 0 ==> chunks == []
    ensures totalWork > 0 ==> Tiles(chunks, 0, totalWork)
  {
    var chunkSize := OptimalChunkSize(totalWork, numThreads);
    chunks := [];
    var i := 0;
    while i < totalWork
      invariant i == |chunks| * chunkSize
      invariant |chunks| > 0 ==> i - chunkSize < totalWork
      invariant forall j :: 0 <= j < |chunks| ==> chunks[j] == ChunkAt(totalWork, chunkSize, j)
    {
      var end := Min(i + chunkSize, totalWork);
      NextStart(|chunks|, chunkSize);
      assert Chunk(i, end) == ChunkAt(totalWork, chunkSize, |chunks|);
      chunks := chunks + [Chunk(i, end)];
      i := i + chunkSize;
    }
    var n := |chunks|;
    if totalWork > 0 {
      assert n >= 1;
      var m := totalWork + chunkSize - 1;
      Geometry.DivModUnique(m, chunkSize, n, m - n * chunkSize);
      StepsTile(totalWork, chunkSize, chunks);
    } else if n > 0 {
      Geometry.MulLeft(1, n, chunkSize);
      assert false;
    }
  }

  /** With at least 8 rows per requested worker the dynamic split makes at
      least four chunks per worker: the chunk count is not bounded by the
      worker count. */
  lemma ChunksOutnumberThreads(totalWork: int, numThreads: int)
    requires numThreads >= 1 && totalWork >= 8 * numThreads
    ensures ChunkCount(totalWork, OptimalChunkSize(totalWork, numThreads)) >= 4 * numThreads
  {
    var size := totalWork / (4 * numThreads);
    assert size * (4 * numThreads) <= totalWork;
    Geometry.MulLeft(2, size, 4 * numThreads);
    assert size >= 2;
    var count := ChunkCount(totalWork, size);
    var m := totalWork + size - 1;
    assert m == count * size + m % size;
    assert count * size >= totalWork;
    if count < 4 * numThreads {
      Geometry.MulLeft(count, 4 * numThreads - 1, size);
      assert false;
    }
  }

  /** Range of thread t in the original variant's static split:
      [t * (total / n), (t + 1) * (total / n)), the last thread ending at total. */
  function ThreadRange(total: int, numThreads: int, t: int): Chunk
    requires numThreads >= 1
  {
    var rowsPerThread := TruncDiv(total, numThreads);
    Chunk(t * rowsPerThread, if t == numThreads - 1 then total else (t + 1) * rowsPerThread)
  }

  function StaticRanges(total: int, numThreads: int): seq<Chunk>
    requires numThreads >= 1
  {
    seq(numThreads, t => ThreadRange(total, numThreads, t))
  }

  /** The static split tiles [0, total); when there are more threads than
      rows the leading ranges are empty and the last takes every row. */
  lemma StaticQuotient(total: int, n: int)
    requires total >= 0 && n >= 1
    ensures var q := TruncDiv(total, n); q >= 0 && (n - 1) * q <= n * q <= total
  {
    var q := total / n;
    assert total == q * n + total % n;
    Geometry.MulLeft(n - 1, n, q);
  }

  lemma StaticRangesTile(total: int, numThreads: int)
    requires total >= 0 && numThreads >= 1
    ensures Tiles(StaticRanges(total, numThreads), 0, total)
    ensures total < numThreads ==> forall t :: 0 <= t < numThreads - 1 ==>
              StaticRanges(total, numThreads)[t] == Chunk(0, 0)
  {
    var n := numThreads;
    var q := TruncDiv(total, n);
    StaticQuotient(total, n);
    var cs := StaticRanges(total, n);
    forall t | 0 <= t < n
      ensures cs[t].start == t * q
      ensures cs[t].start <= cs[t].stop
    {
      if t < n - 1 {
        assert cs[t].stop == (t + 1) * q;
        Geometry.MulLeft(t, t + 1, q);
      } else {
        assert cs[t].start == (n - 1) * q;
      }
    }
    forall t | 0 <= t < n - 1
      ensures cs[t].stop == cs[t + 1].start
    {
    }
    if total < n && q > 0 {
      Geometry.MulLeft(1, q, n);
      assert false;
    }
  }

  /** The original variant's blur split of height - 2 rows for a one-row
      image: every range is empty. */
  lemma StaticRangesOfMinusOne(numThreads: int)
    requires numThreads >= 1
    ensures forall t :: 0 <= t < numThreads ==>
              StaticRanges(-1, numThreads)[t].start >= StaticRanges(-1, numThreads)[t].stop
  {
    var q := TruncDiv(-1, numThreads);
    assert q == (if numThreads == 1 then -1 else 0);
  }

  /** Every range moved by `d` rows. */
  function Shifted(cs: seq<Chunk>, d: int): (r: seq<Chunk>)
    ensures |r| == |cs|
  {
    seq(|cs|, i requires 0 <= i < |cs| => Chunk(cs[i].start + d, cs[i].stop + d))
  }

  lemma ShiftedTiles(cs: seq<Chunk>, lo: int, hi: int, d: int)
    requires Tiles(cs, lo, hi)
    ensures Tiles(Shifted(cs, d), lo + d, hi + d)
  {
  }

  /** The OpenMP builds hand out one row at a time, [y, y + 1). */
  function OneRowChunks(total: nat): seq<Chunk> {
    seq(total, y => Chunk(y, y + 1))
  }

  lemma OneRowChunksTile(total: nat)
    ensures Tiles(OneRowChunks(total), 0, total)
  {
  }
}
