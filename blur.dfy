/** The 3x3 Gaussian blur: the kernel, the blurred buffer as a function of
    the input, the row-range worker (processChunkGaussian, and the body of
    the sequential loops), and the runners over one range or a chunk list.
    The float kernel k/16 is kept as integer weights k with one division by
    16 at the end. */
module Blur {
  import opened Native
  import opened Geometry
  import opened Partition

  /** Sixteen times the kernel entry at (ky, kx): 1 2 1 / 2 4 2 / 1 2 1. */
  function Weight(ky: int, kx: int): int {
    (if ky == 1 then 2 else 1) * (if kx == 1 then 2 else 1)
  }

  /** A byte the filter recomputes: a pixel byte off the outer rows and
      columns. */
  predicate Interior(s: Shape, p: Pos) {
    1 <= p.row < s.height - 1 && 1 <= p.col < s.width - 1 && 0 <= p.chan < s.BytesPerPixel()
  }

  /** Kernel tap (ky, kx) of `p`: row p.row + ky - 1, column p.col + kx - 1. */
  function Neighbour(p: Pos, ky: int, kx: int): Pos {
    Pos(p.row + ky - 1, p.col + kx - 1, p.chan)
  }

  lemma NeighbourInPixels(s: Shape, p: Pos, ky: int, kx: int)
    requires s.Valid() && Interior(s, p) && 0 <= ky < 3 && 0 <= kx < 3
    ensures InPixels(s, Neighbour(p, ky, kx))
    ensures 0 <= Offset(s, Neighbour(p, ky, kx)) < s.Size()
  {
    PosOfOffset(s, Neighbour(p, ky, kx));
  }

  /** The input byte under tap (ky, kx). */
  function Sample(s: Shape, src: seq<byte>, p: Pos, ky: int, kx: int): byte
    requires s.Valid() && |src| == s.Size() && Interior(s, p) && 0 <= ky < 3 && 0 <= kx < 3
  {
    NeighbourInPixels(s, p, ky, kx);
    src[Offset(s, Neighbour(p, ky, kx))]
  }

  /** The weighted sum of the first n taps in loop order (ky outer, kx
      inner), read from the input only. */
  function KernelPrefix(s: Shape, src: seq<byte>, p: Pos, n: int): int
    requires s.Valid() && |src| == s.Size() && Interior(s, p) && 0 <= n <= 9
    decreases n
  {
    if n == 0 then 0
    else KernelPrefix(s, src, p, n - 1) + Weight((n - 1) / 3, (n - 1) % 3) * Sample(s, src, p, (n - 1) / 3, (n - 1) % 3)
  }

  /** The total weight of the first n taps. */
  function WeightPrefix(n: int): int
    requires 0 <= n <= 9
  {
    if n == 0 then 0 else WeightPrefix(n - 1) + Weight((n - 1) / 3, (n - 1) % 3)
  }

  /** Sixteen times the filtered value of `p`. */
  function WeightedSum(s: Shape, src: seq<byte>, p: Pos): int
    requires s.Valid() && |src| == s.Size() && Interior(s, p)
  {
    KernelPrefix(s, src, p, 9)
  }

  /** `static_cast<unsigned char>(max(0, min(255, sum)))` for sum = sum16 / 16:
      the real sum clamped to [0, 255], then truncated toward zero. */
  function Clamp(sum16: int): (r: byte)
    ensures var sum := sum16 as real / 16.0;
            r == if sum < 0.0 then 0 else if sum > 255.0 then 255 else sum.Floor
  {
    if sum16 < 0 then 0 else if sum16 / 16 > 255 then 255 else sum16 / 16
  }

  /** The filtered buffer: interior bytes replaced by the clamped weighted
      average of the input neighbourhood, every other byte copied. */
  function Blurred(s: Shape, src: seq<byte>): (r: seq<byte>)
    requires s.Valid() && |src| == s.Size()
    ensures |r| == |src|
  {
    seq(|src|, k requires 0 <= k < |src| =>
      if Interior(s, PosOf(s, k)) then Clamp(WeightedSum(s, src, PosOf(s, k))) else src[k])
  }

  /** The kernel weights add up to 16. */
  lemma WeightsSumTo16()
    ensures WeightPrefix(9) == 16
  {
  }

  /** The tap sum lies between 0 and 255 times the weight so far. */
  lemma {:induction false} KernelPrefixBounds(s: Shape, src: seq<byte>, p: Pos, n: int)
    requires s.Valid() && |src| == s.Size() && Interior(s, p) && 0 <= n <= 9
    ensures 0 <= KernelPrefix(s, src, p, n) <= 255 * WeightPrefix(n)
  {
    if n > 0 {
      KernelPrefixBounds(s, src, p, n - 1);
      var ky, kx := (n - 1) / 3, (n - 1) % 3;
      var w, v := Weight(ky, kx), Sample(s, src, p, ky, kx) as int;
      assert 1 <= w <= 4;
      MulLeft(0, v, w);
      MulLeft(v, 255, w);
      Distribute(255, WeightPrefix(n - 1), w);
    }
  }

  /** Each new value is a plain truncated average: the clamp never acts. */
  lemma BlurredNeedsNoClamp(s: Shape, src: seq<byte>, k: int)
    requires s.Valid() && |src| == s.Size() && 0 <= k < |src| && Interior(s, PosOf(s, k))
    ensures 0 <= WeightedSum(s, src, PosOf(s, k)) <= 16 * 255
    ensures Blurred(s, src)[k] == WeightedSum(s, src, PosOf(s, k)) / 16
  {
    KernelPrefixBounds(s, src, PosOf(s, k), 9);
    WeightsSumTo16();
  }

  /** The weighted sum written out tap by tap. */
  lemma WeightedSumTerms(s: Shape, src: seq<byte>, p: Pos)
    requires s.Valid() && |src| == s.Size() && Interior(s, p)
    ensures WeightedSum(s, src, p)
            == 1 * Sample(s, src, p, 0, 0) + 2 * Sample(s, src, p, 0, 1) + 1 * Sample(s, src, p, 0, 2)
             + 2 * Sample(s, src, p, 1, 0) + 4 * Sample(s, src, p, 1, 1) + 2 * Sample(s, src, p, 1, 2)
             + 1 * Sample(s, src, p, 2, 0) + 2 * Sample(s, src, p, 2, 1) + 1 * Sample(s, src, p, 2, 2)
  {
    assert KernelPrefix(s, src, p, 3) == Sample(s, src, p, 0, 0) + 2 * Sample(s, src, p, 0, 1) + Sample(s, src, p, 0, 2);
    assert KernelPrefix(s, src, p, 6) == KernelPrefix(s, src, p, 3)
      + 2 * Sample(s, src, p, 1, 0) + 4 * Sample(s, src, p, 1, 1) + 2 * Sample(s, src, p, 1, 2);
  }

  /** With every tap equal to v, the tap sum is v times the weight so far. */
  lemma {:induction false} UniformPrefix(s: Shape, src: seq<byte>, p: Pos, v: int, n: int)
    requires s.Valid() && |src| == s.Size() && Interior(s, p) && 0 <= n <= 9
    requires forall ky, kx :: 0 <= ky < 3 && 0 <= kx < 3 ==> Sample(s, src, p, ky, kx) == v
    ensures KernelPrefix(s, src, p, n) == v * WeightPrefix(n)
  {
    if n > 0 {
      UniformPrefix(s, src, p, v, n - 1);
      var w := Weight((n - 1) / 3, (n - 1) % 3);
      assert Sample(s, src, p, (n - 1) / 3, (n - 1) % 3) == v;
      assert KernelPrefix(s, src, p, n) == v * WeightPrefix(n - 1) + w * v;
      assert WeightPrefix(n) == WeightPrefix(n - 1) + w;
      Distribute(v, WeightPrefix(n - 1), w);
    }
  }

  lemma Distribute(v: int, a: int, b: int)
    ensures v * (a + b) == v * a + v * b
  {
  }

  /** A flat neighbourhood is left as it is. */
  lemma FlatNeighbourhoodUnchanged(s: Shape, src: seq<byte>, k: int)
    requires s.Valid() && |src| == s.Size() && 0 <= k < |src| && Interior(s, PosOf(s, k))
    requires forall ky, kx :: 0 <= ky < 3 && 0 <= kx < 3 ==> Sample(s, src, PosOf(s, k), ky, kx) == src[k]
    ensures Blurred(s, src)[k] == src[k]
  {
    UniformPrefix(s, src, PosOf(s, k), src[k] as int, 9);
    WeightsSumTo16();
  }

  /** Rows 0 and height - 1, columns 0 and width - 1 and the row padding keep
      their input bytes. */
  lemma BorderUnchanged(s: Shape, src: seq<byte>, k: int)
    requires s.Valid() && |src| == s.Size() && 0 <= k < |src|
    requires var p := PosOf(s, k);
             p.row == 0 || p.row == s.height - 1 || p.col == 0 || p.col == s.width - 1 || !IsPixelByte(s, k)
    ensures Blurred(s, src)[k] == src[k]
  {
  }

  /** The float loop `sum += kernel[ky][kx] * imageData[...]`, kept in
      sixteenths. */
  method KernelSum(s: Shape, src: seq<byte>, p: Pos) returns (sum: int)
    requires s.Valid() && |src| == s.Size() && Interior(s, p)
    ensures sum == WeightedSum(s, src, p)
  {
    var rowSize, bytesPerPixel := s.Stride(), s.BytesPerPixel();
    var x, y, c := p.col, p.row, p.chan;
    sum := 0;
    var ky := 0;
    while ky < 3
      invariant 0 <= ky <= 3
      invariant sum == KernelPrefix(s, src, p, 3 * ky)
    {
      var kx := 0;
      while kx < 3
        invariant 0 <= kx <= 3
        invariant sum == KernelPrefix(s, src, p, 3 * ky + kx)
      {
        var px := x + kx - 1;
        var py := y + ky - 1;
        NeighbourInPixels(s, p, ky, kx);
        assert (3 * ky + kx) / 3 == ky && (3 * ky + kx) % 3 == kx;
        sum := sum + Weight(ky, kx) * src[py * rowSize + px * bytesPerPixel + c] as int;
        kx := kx + 1;
      }
      ky := ky + 1;
    }
  }

  /** Byte `k` has been filtered by loops that started at row `startY` and
      have reached (y, x, c). */
  predicate Filtered(s: Shape, k: int, startY: int, y: int, x: int, c: int)
    requires s.Valid() && 0 <= k
  {
    var p := PosOf(s, k);
    Interior(s, p) && startY <= p.row && Before(p, y, x, c)
  }

  /** One step rewrites exactly the byte at `p`. */
  lemma FilterStep(s: Shape, src: seq<byte>, startY: int, p: Pos)
    requires s.Valid() && |src| == s.Size() && Interior(s, p) && startY <= p.row
    ensures var o := Offset(s, p);
            && 0 <= o < s.Size()
            && PosOf(s, o) == p
            && Blurred(s, src)[o] == Clamp(WeightedSum(s, src, p))
            && forall k :: 0 <= k < s.Size() ==>
                 (Filtered(s, k, startY, p.row, p.col, p.chan + 1)
                  <==> Filtered(s, k, startY, p.row, p.col, p.chan) || k == o)
  {
    PosOfOffset(s, p);
  }

  lemma FilterColumnDone(s: Shape, startY: int, y: int, x: int)
    requires s.Valid()
    ensures forall k :: 0 <= k < s.Size() ==>
              (Filtered(s, k, startY, y, x, s.BytesPerPixel()) <==> Filtered(s, k, startY, y, x + 1, 0))
  {
  }

  /** Column 0 is never filtered, and columns from width - 1 on are not. */
  lemma FilterRowEnds(s: Shape, startY: int, y: int, lastX: int, nextY: int)
    requires s.Valid() && lastX == Max(1, s.width - 1) && nextY == y + 1
    ensures forall k :: 0 <= k < s.Size() ==>
              (Filtered(s, k, startY, y, 0, 0) <==> Filtered(s, k, startY, y, 1, 0))
    ensures forall k :: 0 <= k < s.Size() ==>
              (Filtered(s, k, startY, y, lastX, 0) <==> Filtered(s, k, startY, nextY, 0, 0))
  {
  }

  /** The filter loops over rows [startY, endY), never past the borders. */
  method BlurRows(s: Shape, src: seq<byte>, dest: array<byte>, startY: int, endY: int)
    requires s.Valid() && |src| == s.Size() && dest.Length == s.Size()
    requires Chunk(startY, endY).Within(1, s.height - 1)
    modifies dest
    ensures forall k :: 0 <= k < dest.Length ==>
              dest[k] == if Interior(s, PosOf(s, k)) && startY <= PosOf(s, k).row < endY
                         then Blurred(s, src)[k] else old(dest[k])
  {
    ghost var r := Blurred(s, src);
    var width, rowSize, bytesPerPixel := s.width, s.Stride(), s.BytesPerPixel();
    var y := startY;
    while y < endY
      invariant startY <= y && (startY < endY ==> y <= endY) && (endY <= startY ==> y == startY)
      invariant forall k :: 0 <= k < dest.Length ==>
                  dest[k] == if Filtered(s, k, startY, y, 0, 0) then r[k] else old(dest[k])
    {
      FilterRowEnds(s, startY, y, Max(1, width - 1), y + 1);
      var x := 1;
      while x < width - 1
        invariant 1 <= x <= Max(1, width - 1)
        invariant forall k :: 0 <= k < dest.Length ==>
                    dest[k] == if Filtered(s, k, startY, y, x, 0) then r[k] else old(dest[k])
      {
        var c := 0;
        while c < bytesPerPixel
          invariant 0 <= c <= bytesPerPixel
          invariant forall k :: 0 <= k < dest.Length ==>
                      dest[k] == if Filtered(s, k, startY, y, x, c) then r[k] else old(dest[k])
        {
          var sum := KernelSum(s, src, Pos(y, x, c));
          FilterStep(s, src, startY, Pos(y, x, c));
          dest[y * rowSize + x * bytesPerPixel + c] := Clamp(sum);
          c := c + 1;
        }
        FilterColumnDone(s, startY, y, x);
        x := x + 1;
      }
      y := y + 1;
    }
    forall k | 0 <= k < dest.Length
      ensures Filtered(s, k, startY, y, 0, 0)
              <==> Interior(s, PosOf(s, k)) && startY <= PosOf(s, k).row < endY
    {
    }
  }

  /** The sequential filter: a copy of the input, then the loops over rows
      [1, height - 1). */
  method BlurBuffer(s: Shape, src: seq<byte>) returns (r: seq<byte>)
    requires s.Valid() && |src| == s.Size()
    ensures r == Blurred(s, src)
  {
    var filtered := new byte[|src|](i requires 0 <= i < |src| => src[i]);
    BlurRows(s, src, filtered, 1, s.height - 1);
    r := filtered[..];
  }

  /** The chunked filter: the worker run once per chunk, in order, on one
      copy of the input. A byte is filtered exactly when its row is in some
      chunk; with every interior row covered this is the sequential result. */
  method BlurChunked(s: Shape, src: seq<byte>, chunks: seq<Chunk>) returns (r: seq<byte>)
    requires s.Valid() && |src| == s.Size()
    requires AllWithin(chunks, 1, s.height - 1)
    ensures |r| == |src|
    ensures forall k :: 0 <= k < |r| ==>
              r[k] == if Interior(s, PosOf(s, k)) && Covered(chunks, PosOf(s, k).row)
                      then Blurred(s, src)[k] else src[k]
    ensures RowsCovered(chunks, 1, s.height - 1) ==> r == Blurred(s, src)
  {
    ghost var blurred := Blurred(s, src);
    var filtered := new byte[|src|](i requires 0 <= i < |src| => src[i]);
    var i := 0;
    while i < |chunks|
      invariant 0 <= i <= |chunks|
      invariant forall k :: 0 <= k < filtered.Length ==>
                  filtered[k] == if Interior(s, PosOf(s, k)) && Covered(chunks[..i], PosOf(s, k).row)
                                 then blurred[k] else src[k]
    {
      BlurRows(s, src, filtered, chunks[i].start, chunks[i].stop);
      forall k | 0 <= k < filtered.Length
        ensures Covered(chunks[..i + 1], PosOf(s, k).row)
                <==> Covered(chunks[..i], PosOf(s, k).row) || chunks[i].Contains(PosOf(s, k).row)
      {
        CoveredSnoc(chunks, i, PosOf(s, k).row);
      }
      i := i + 1;
    }
    assert chunks[..i] == chunks;
    r := filtered[..];
  }
}
