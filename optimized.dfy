/** BMPImageOptimized: the same descriptor and sequential members as
    BMPImage, plus two operation counters and parallel transforms that hand
    out rows in chunks from createWorkChunks. */
module Optimized {
  import opened Native
  import opened Geometry
  import opened Partition
  import opened Codec
  import opened Rotation
  import opened Blur
  import opened Descriptor

  /** The worker count after "limit threads based on work size": the
      requested or hardware count, capped by the number of rows to process. */
  function WorkerCount(numThreads: int, hardware: nat, rows: int): (n: int)
    ensures rows >= 1 ==> 1 <= n <= rows
    ensures rows < 1 ==> n == rows
    ensures n <= ThreadCount(numThreads, hardware)
  {
    Min(ThreadCount(numThreads, hardware), rows)
  }

  /** The parallel filter caps its workers by height - 2. For a two-row image
      that leaves no worker, and createWorkChunks then divides by zero in
      calculateOptimalChunkSize. */
  lemma TwoRowFilterHasNoWorkers(numThreads: int, hardware: nat)
    ensures WorkerCount(numThreads, hardware, 2 - 2) == 0
  {
  }

  /** The filter's chunks: createWorkChunks over the height - 2 interior rows,
      shifted down one row; with no interior row there is nothing to split,
      so no chunk size is computed. */
  method FilterChunks(height: int, numThreads: int, hardware: nat) returns (chunks: seq<Chunk>)
    ensures AllWithin(chunks, 1, height - 1) && RowsCovered(chunks, 1, height - 1)
    ensures height <= 2 ==> chunks == []
    ensures height > 2 ==>
              var n := WorkerCount(numThreads, hardware, height - 2);
              && |chunks| == ChunkCount(height - 2, OptimalChunkSize(height - 2, n))
              && forall i :: 0 <= i < |chunks| ==>
                   chunks[i] == Chunk(ChunkAt(height - 2, OptimalChunkSize(height - 2, n), i).start + 1,
                                      ChunkAt(height - 2, OptimalChunkSize(height - 2, n), i).stop + 1)
  {
    var workHeight := height - 2;
    if workHeight <= 0 {
      return [];
    }
    var n := WorkerCount(numThreads, hardware, workHeight);
    var rows := CreateWorkChunks(workHeight, n);
    ShiftedTiles(rows, 0, workHeight, 1);
    TilingCovers(Shifted(rows, 1), 1, height - 1);
    chunks := Shifted(rows, 1);
  }

  class BmpImageOptimized {
    /** The descriptor state the optimized class repeats from BMPImage. */
    const image: BmpImage
    var totalOperations: nat
    var parallelOperations: nat

    /** Every parallel operation also counts as an operation. */
    predicate Valid()
      reads this, image
    {
      image.Valid() && parallelOperations <= totalOperations
    }

    /** Zeroed descriptor, counters at zero. */
    constructor()
      ensures Valid() && fresh(image)
      ensures image.Fields() == (0, 0, 0, 0, 0) && image.path == ""
      ensures totalOperations == 0 && parallelOperations == 0
    {
      image := new BmpImage();
      totalOperations, parallelOperations := 0, 0;
    }

    /** rotateClockwise / rotateCounterClockwise: the shared rotation, then
        one more operation. */
    method Rotate(turn: Turn, data: seq<byte>) returns (r: Result<seq<byte>>)
      requires Valid() && image.Ready()
      modifies this, image
      ensures Valid() && image.Ready() && image.path == old(image.path)
      ensures |data| != old(image.dataSize) ==>
                && r == Err(DataSizeMismatch) && image.Fields() == old(image.Fields())
                && totalOperations == old(totalOperations)
      ensures |data| == old(image.dataSize) ==>
                && image.ImageShape() == old(image.ImageShape()).Turned()
                && r == Ok(Rotated(turn, old(image.ImageShape()), data))
                && totalOperations == old(totalOperations) + 1
      ensures parallelOperations == old(parallelOperations)
    {
      r := image.Rotate(turn, data);
      if r.Ok? {
        totalOperations := totalOperations + 1;
      }
    }

    /** applyGaussianFilter: the shared filter, then one more operation. */
    method ApplyGaussianFilter(data: seq<byte>) returns (r: Result<seq<byte>>)
      requires Valid() && image.Ready()
      modifies this
      ensures Valid()
      ensures |data| != image.dataSize ==> r == Err(DataSizeMismatch) && totalOperations == old(totalOperations)
      ensures |data| == image.dataSize ==>
                r == Ok(Blurred(image.ImageShape(), data)) && totalOperations == old(totalOperations) + 1
      ensures parallelOperations == old(parallelOperations)
    {
      r := image.ApplyGaussianFilter(data);
      if r.Ok? {
        totalOperations := totalOperations + 1;
      }
    }

    /** rotateClockwiseParallel / rotateCounterClockwiseParallel: one-row
        tasks under OpenMP, else the chunks of createWorkChunks over the old
        height; the same buffer as the sequential rotation, counted as an
        operation and as a parallel one. */
    method RotateParallel(turn: Turn, data: seq<byte>, numThreads: int, hardware: nat, backend: Backend)
      returns (r: Result<seq<byte>>)
      requires Valid() && image.Ready()
      modifies this, image
      ensures Valid() && image.Ready() && image.path == old(image.path)
      ensures |data| != old(image.dataSize) ==>
                && r == Err(DataSizeMismatch) && image.Fields() == old(image.Fields())
                && totalOperations == old(totalOperations) && parallelOperations == old(parallelOperations)
      ensures |data| == old(image.dataSize) ==>
                && image.ImageShape() == old(image.ImageShape()).Turned()
                && r == Ok(Rotated(turn, old(image.ImageShape()), data))
                && totalOperations == old(totalOperations) + 1
                && parallelOperations == old(parallelOperations) + 1
    {
      if |data| != image.dataSize {
        return Err(DataSizeMismatch);
      }
      var oldShape := image.ImageShape();
      image.TurnGeometry();
      var n := WorkerCount(numThreads, hardware, oldShape.height);
      var chunks;
      if backend.OpenMp? {
        chunks := OneRowChunks(oldShape.height);
        OneRowChunksTile(oldShape.height);
      } else {
        chunks := CreateWorkChunks(oldShape.height, n);
      }
      TilingCovers(chunks, 0, oldShape.height);
      var newData := RotateChunked(turn, oldShape, data, chunks);
      r := Ok(newData);
      totalOperations := totalOperations + 1;
      parallelOperations := parallelOperations + 1;
    }

    /** applyGaussianFilterParallel: one-row tasks over rows 1 .. height - 2
        under OpenMP, else FilterChunks; the same buffer as the sequential
        filter, counted as an operation and as a parallel one. */
    method ApplyGaussianFilterParallel(data: seq<byte>, numThreads: int, hardware: nat, backend: Backend)
      returns (r: Result<seq<byte>>)
      requires Valid() && image.Ready()
      modifies this
      ensures Valid()
      ensures |data| != image.dataSize ==>
                && r == Err(DataSizeMismatch)
                && totalOperations == old(totalOperations) && parallelOperations == old(parallelOperations)
      ensures |data| == image.dataSize ==>
                && r == Ok(Blurred(image.ImageShape(), data))
                && totalOperations == old(totalOperations) + 1
                && parallelOperations == old(parallelOperations) + 1
    {
      if |data| != image.dataSize {
        return Err(DataSizeMismatch);
      }
      var s := image.ImageShape();
      var chunks;
      if backend.OpenMp? {
        var rows := OneRowChunks(Max(0, s.height - 2));
        OneRowChunksTile(Max(0, s.height - 2));
        ShiftedTiles(rows, 0, Max(0, s.height - 2), 1);
        TilingCovers(Shifted(rows, 1), 1, Max(0, s.height - 2) + 1);
        chunks := Shifted(rows, 1);
      } else {
        chunks := FilterChunks(s.height, numThreads, hardware);
      }
      image.ReadySize();
      var filtered := BlurChunked(s, data, chunks);
      r := Ok(filtered);
      totalOperations := totalOperations + 1;
      parallelOperations := parallelOperations + 1;
    }

    /** resetPerformanceCounters. */
    method ResetPerformanceCounters()
      requires Valid()
      modifies this
      ensures Valid() && totalOperations == 0 && parallelOperations == 0
    {
      totalOperations, parallelOperations := 0, 0;
    }

    function GetTotalOperations(): nat reads this { totalOperations }

    function GetParallelOperations(): nat reads this { parallelOperations }

    /** getParallelEfficiency: the share of operations that ran in parallel,
        0 before any operation. */
    function GetParallelEfficiency(): (r: real)
      reads this
      ensures totalOperations == 0 ==> r == 0.0
      ensures totalOperations > 0 ==> r * totalOperations as real == parallelOperations as real
      ensures parallelOperations <= totalOperations ==> 0.0 <= r <= 1.0
    {
      if totalOperations == 0 then 0.0
      else parallelOperations as real / totalOperations as real
    }
  }
}
