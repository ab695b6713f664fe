/** Quarter-turn rotation of a padded pixel buffer: the pixel mappings, the
    rotated buffer as a function of the source, the row-range worker
    (processChunkClockwise / processChunkCounterClockwise, and the body of
    the sequential loops), and the runners over one range or a chunk list. */
module Rotation {
  import opened Native
  import opened Geometry
  import opened Partition

  datatype Turn = Clockwise | CounterClockwise {
    function Opposite(): Turn {
      if Clockwise? then CounterClockwise else Clockwise
    }
  }

  /** Where byte `p` of the source lands: clockwise (x, y) goes to column y,
      row oldWidth - 1 - x; counter-clockwise to column oldHeight - 1 - y,
      row x. */
  function DestPos(turn: Turn, s: Shape, p: Pos): Pos {
    match turn
    case Clockwise => Pos(s.width - 1 - p.col, p.row, p.chan)
    case CounterClockwise => Pos(p.col, s.height - 1 - p.row, p.chan)
  }

  /** The source byte that destination byte `q` is copied from. */
  function SourcePos(turn: Turn, s: Shape, q: Pos): Pos {
    match turn
    case Clockwise => Pos(q.col, s.width - 1 - q.row, q.chan)
    case CounterClockwise => Pos(s.height - 1 - q.col, q.row, q.chan)
  }

  /** Every source pixel lands inside the turned image, so the bounds guard
      in the loops is always true, and it can be traced back. */
  lemma DestInPixels(turn: Turn, s: Shape, p: Pos)
    requires InPixels(s, p)
    ensures InPixels(s.Turned(), DestPos(turn, s, p))
    ensures SourcePos(turn, s, DestPos(turn, s, p)) == p
  {
  }

  /** Every pixel of the turned image comes from a source pixel. */
  lemma SourceInPixels(turn: Turn, s: Shape, q: Pos)
    requires InPixels(s.Turned(), q)
    ensures InPixels(s, SourcePos(turn, s, q))
    ensures DestPos(turn, s, SourcePos(turn, s, q)) == q
  {
  }

  /** The source address of pixel byte `k` of the turned buffer. */
  function SourceOffset(turn: Turn, s: Shape, k: int): (i: int)
    requires s.Valid() && 0 <= k < s.Turned().Size() && IsPixelByte(s.Turned(), k)
    ensures 0 <= i < s.Size()
  {
    var t := s.Turned();
    PixelByteInPixels(t, k);
    var p := SourcePos(turn, s, PosOf(t, k));
    SourceInPixels(turn, s, PosOf(t, k));
    PosOfOffset(s, p);
    Offset(s, p)
  }

  /** The source row pixel byte `k` of the turned buffer comes from. */
  function SourceRow(turn: Turn, s: Shape, k: int): int
    requires s.Valid() && 0 <= k
  {
    SourcePos(turn, s, PosOf(s.Turned(), k)).row
  }

  /** The rotated buffer: every pixel byte copied from its source, every
      padding byte 0. */
  function Rotated(turn: Turn, s: Shape, src: seq<byte>): (r: seq<byte>)
    requires s.Valid() && |src| == s.Size()
    ensures |r| == s.Turned().Size()
  {
    var t := s.Turned();
    seq(t.Size(), k requires 0 <= k < t.Size() =>
      if IsPixelByte(t, k) then src[SourceOffset(turn, s, k)] else 0)
  }

  /** The pixel mapping: source byte (row, col, chan) is found at its
      destination offset, which is inside the new buffer. */
  lemma {:induction false} RotatedMapping(turn: Turn, s: Shape, src: seq<byte>, p: Pos)
    requires s.Valid() && |src| == s.Size() && InPixels(s, p)
    ensures var o := Offset(s.Turned(), DestPos(turn, s, p));
            && 0 <= o < s.Turned().Size()
            && IsPixelByte(s.Turned(), o)
            && 0 <= Offset(s, p) < s.Size()
            && Rotated(turn, s, src)[o] == src[Offset(s, p)]
  {
    var t := s.Turned();
    var q := DestPos(turn, s, p);
    DestInPixels(turn, s, p);
    PosOfOffset(t, q);
    PosOfOffset(s, p);
  }

  /** A byte of the new buffer that no source pixel is sent to stays 0. */
  lemma {:induction false} RotatedUnwrittenZero(turn: Turn, s: Shape, src: seq<byte>, k: int)
    requires s.Valid() && |src| == s.Size() && 0 <= k < s.Turned().Size()
    requires forall p :: InPixels(s, p) ==> Offset(s.Turned(), DestPos(turn, s, p)) != k
    ensures Rotated(turn, s, src)[k] == 0
  {
    var t := s.Turned();
    if IsPixelByte(t, k) {
      PixelByteInPixels(t, k);
      SourceInPixels(turn, s, PosOf(t, k));
      assert false;
    }
  }

  /** The buffer with its padding bytes zeroed. */
  function PixelsOnly(s: Shape, src: seq<byte>): (r: seq<byte>)
    requires s.Valid() && |src| == s.Size()
    ensures |r| == |src|
  {
    seq(|src|, k requires 0 <= k < |src| => if IsPixelByte(s, k) then src[k] else 0)
  }

  lemma SourceOfOpposite(turn: Turn, s: Shape, q: Pos)
    ensures SourcePos(turn, s, SourcePos(turn.Opposite(), s.Turned(), q)) == q
  {
  }

  /** Turning one way and back restores every pixel byte; only padding is
      lost (it comes back as 0). */
  lemma {:induction false} TurnBack(turn: Turn, s: Shape, src: seq<byte>)
    requires s.Valid() && |src| == s.Size()
    ensures s.Turned().Turned() == s
    ensures Rotated(turn.Opposite(), s.Turned(), Rotated(turn, s, src)) == PixelsOnly(s, src)
  {
    var t := s.Turned();
    var mid := Rotated(turn, s, src);
    var back := Rotated(turn.Opposite(), t, mid);
    assert t.Turned() == s;
    forall k | 0 <= k < |src|
      ensures back[k] == PixelsOnly(s, src)[k]
    {
      if IsPixelByte(s, k) {
        var q := PosOf(s, k);
        PixelByteInPixels(s, k);
        var sp := SourcePos(turn.Opposite(), t, q);
        SourceInPixels(turn.Opposite(), t, q);
        PosOfOffset(t, sp);
        SourceOfOpposite(turn, s, q);
        assert back[k] == mid[Offset(t, sp)];
        assert mid[Offset(t, sp)] == src[Offset(s, q)];
      }
    }
  }

  /** Byte `k` of the turned buffer has been written by loops that started at
      source row `startY` and have reached (y, x, c). */
  predicate Written(turn: Turn, s: Shape, k: int, startY: int, y: int, x: int, c: int)
    requires s.Valid() && 0 <= k
  {
    var t := s.Turned();
    IsPixelByte(t, k) && var p := SourcePos(turn, s, PosOf(t, k)); startY <= p.row && Before(p, y, x, c)
  }

  lemma WrittenSourceInPixels(turn: Turn, s: Shape, k: int)
    requires s.Valid() && 0 <= k < s.Turned().Size() && IsPixelByte(s.Turned(), k)
    ensures InPixels(s, SourcePos(turn, s, PosOf(s.Turned(), k)))
  {
    PixelByteInPixels(s.Turned(), k);
    SourceInPixels(turn, s, PosOf(s.Turned(), k));
  }

  /** One copy step writes exactly the byte the source pixel maps to. */
  lemma {:induction false} WriteStep(turn: Turn, s: Shape, src: seq<byte>, startY: int, p: Pos)
    requires s.Valid() && |src| == s.Size() && InPixels(s, p) && startY <= p.row
    ensures var t, o := s.Turned(), Offset(s.Turned(), DestPos(turn, s, p));
            && 0 <= o < t.Size()
            && 0 <= Offset(s, p) < |src|
            && Rotated(turn, s, src)[o] == src[Offset(s, p)]
    ensures forall k :: 0 <= k < s.Turned().Size() ==>
              (Written(turn, s, k, startY, p.row, p.col, p.chan + 1)
               <==> Written(turn, s, k, startY, p.row, p.col, p.chan) || k == Offset(s.Turned(), DestPos(turn, s, p)))
  {
    RotatedMapping(turn, s, src, p);
    forall k | 0 <= k < s.Turned().Size()
      ensures Written(turn, s, k, startY, p.row, p.col, p.chan + 1)
              <==> Written(turn, s, k, startY, p.row, p.col, p.chan) || k == Offset(s.Turned(), DestPos(turn, s, p))
    {
      WriteStepAt(turn, s, startY, p, k);
    }
  }

  /** The byte the step at `p` writes is the one whose source is `p`. */
  lemma WriteStepAt(turn: Turn, s: Shape, startY: int, p: Pos, k: int)
    requires s.Valid() && InPixels(s, p) && startY <= p.row && 0 <= k < s.Turned().Size()
    ensures Written(turn, s, k, startY, p.row, p.col, p.chan + 1)
            <==> Written(turn, s, k, startY, p.row, p.col, p.chan) || k == Offset(s.Turned(), DestPos(turn, s, p))
  {
    var t := s.Turned();
    var q := DestPos(turn, s, p);
    DestInPixels(turn, s, p);
    PosOfOffset(t, q);
    if IsPixelByte(t, k) && SourcePos(turn, s, PosOf(t, k)) == p {
      PixelByteInPixels(t, k);
      SourceInPixels(turn, s, PosOf(t, k));
      assert PosOf(t, k) == q;
    }
  }

  /** Finishing the channels of column x is starting column x + 1. */
  lemma ColumnDone(turn: Turn, s: Shape, startY: int, y: int, x: int)
    requires s.Valid()
    ensures forall k :: 0 <= k < s.Turned().Size() ==>
              (Written(turn, s, k, startY, y, x, s.BytesPerPixel()) <==> Written(turn, s, k, startY, y, x + 1, 0))
  {
    forall k | 0 <= k < s.Turned().Size() && IsPixelByte(s.Turned(), k)
      ensures Written(turn, s, k, startY, y, x, s.BytesPerPixel()) <==> Written(turn, s, k, startY, y, x + 1, 0)
    {
      WrittenSourceInPixels(turn, s, k);
    }
  }

  /** Finishing the columns of row y is starting row y + 1. */
  lemma RowDone(turn: Turn, s: Shape, startY: int, y: int)
    requires s.Valid()
    ensures forall k :: 0 <= k < s.Turned().Size() ==>
              (Written(turn, s, k, startY, y, s.width, 0) <==> Written(turn, s, k, startY, y + 1, 0, 0))
  {
    forall k | 0 <= k < s.Turned().Size() && IsPixelByte(s.Turned(), k)
      ensures Written(turn, s, k, startY, y, s.width, 0) <==> Written(turn, s, k, startY, y + 1, 0, 0)
    {
      WrittenSourceInPixels(turn, s, k);
    }
  }

  /** Loops over rows [startY, endY) have written exactly the pixel bytes
      whose source row is in that range. */
  lemma RowsDone(turn: Turn, s: Shape, startY: int, endY: int)
    requires s.Valid()
    ensures forall k :: 0 <= k < s.Turned().Size() ==>
              (Written(turn, s, k, startY, endY, 0, 0)
               <==> IsPixelByte(s.Turned(), k) && startY <= SourceRow(turn, s, k) < endY)
  {
    forall k | 0 <= k < s.Turned().Size() && IsPixelByte(s.Turned(), k)
      ensures Written(turn, s, k, startY, endY, 0, 0) <==> startY <= SourceRow(turn, s, k) < endY
    {
      WrittenSourceInPixels(turn, s, k);
    }
  }

  /** The rotation loops over source rows [startY, endY), writing into the
      new buffer through the new stride. */
  method RotateRows(turn: Turn, s: Shape, src: seq<byte>, dest: array<byte>, startY: int, endY: int)
    requires s.Valid() && |src| == s.Size() && dest.Length == s.Turned().Size()
    requires Chunk(startY, endY).Within(0, s.height)
    modifies dest
    ensures forall k :: 0 <= k < dest.Length ==>
              dest[k] == if IsPixelByte(s.Turned(), k) && startY <= SourceRow(turn, s, k) < endY
                         then Rotated(turn, s, src)[k] else old(dest[k])
  {
    ghost var r := Rotated(turn, s, src);
    var t := s.Turned();
    var bytesPerPixel := s.BytesPerPixel();
    var oldWidth, oldHeight, oldRowSize := s.width, s.height, s.Stride();
    var width, height, rowSize := t.width, t.height, t.Stride();
    var y := startY;
    while y < endY
      invariant startY <= y && (startY < endY ==> y <= endY) && (endY <= startY ==> y == startY)
      invariant forall k :: 0 <= k < dest.Length ==>
                  dest[k] == if Written(turn, s, k, startY, y, 0, 0) then r[k] else old(dest[k])
    {
      var x := 0;
      while x < oldWidth
        invariant 0 <= x <= oldWidth
        invariant forall k :: 0 <= k < dest.Length ==>
                    dest[k] == if Written(turn, s, k, startY, y, x, 0) then r[k] else old(dest[k])
      {
        var c := 0;
        while c < bytesPerPixel
          invariant 0 <= c <= bytesPerPixel
          invariant forall k :: 0 <= k < dest.Length ==>
                      dest[k] == if Written(turn, s, k, startY, y, x, c) then r[k] else old(dest[k])
        {
          var newX := if turn.Clockwise? then y else oldHeight - 1 - y;
          var newY := if turn.Clockwise? then oldWidth - 1 - x else x;
          WriteStep(turn, s, src, startY, Pos(y, x, c));
          DestInPixels(turn, s, Pos(y, x, c));
          if newX < width && newY < height {
            dest[newY * rowSize + newX * bytesPerPixel + c] := src[y * oldRowSize + x * bytesPerPixel + c];
          }
          c := c + 1;
        }
        ColumnDone(turn, s, startY, y, x);
        x := x + 1;
      }
      RowDone(turn, s, startY, y);
      y := y + 1;
    }
    RowsDone(turn, s, startY, y);
    forall k | 0 <= k < dest.Length
      ensures Written(turn, s, k, startY, y, 0, 0)
              <==> IsPixelByte(s.Turned(), k) && startY <= SourceRow(turn, s, k) < endY
    {
    }
  }

  /** The sequential rotation: a zero-filled buffer of the new size, then the
      loops over every source row. */
  method RotateBuffer(turn: Turn, s: Shape, src: seq<byte>) returns (r: seq<byte>)
    requires s.Valid() && |src| == s.Size()
    ensures r == Rotated(turn, s, src)
  {
    var newData := new byte[s.Turned().Size()](_ => 0);
    RotateRows(turn, s, src, newData, 0, s.height);
    forall k | 0 <= k < newData.Length && IsPixelByte(s.Turned(), k)
      ensures 0 <= SourceRow(turn, s, k) < s.height
    {
      WrittenSourceInPixels(turn, s, k);
    }
    r := newData[..];
  }

  /** The chunked rotation: the worker run once per chunk, in order, on one
      zero-filled buffer. A byte is filled exactly when its source row is in
      some chunk; with every row covered this is the sequential result. */
  method RotateChunked(turn: Turn, s: Shape, src: seq<byte>, chunks: seq<Chunk>) returns (r: seq<byte>)
    requires s.Valid() && |src| == s.Size()
    requires AllWithin(chunks, 0, s.height)
    ensures |r| == s.Turned().Size()
    ensures forall k :: 0 <= k < |r| ==>
              r[k] == if IsPixelByte(s.Turned(), k) && Covered(chunks, SourceRow(turn, s, k))
                      then Rotated(turn, s, src)[k] else 0
    ensures RowsCovered(chunks, 0, s.height) ==> r == Rotated(turn, s, src)
  {
    ghost var rot := Rotated(turn, s, src);
    var newData := new byte[s.Turned().Size()](_ => 0);
    var i := 0;
    while i < |chunks|
      invariant 0 <= i <= |chunks|
      invariant forall k :: 0 <= k < newData.Length ==>
                  newData[k] == if IsPixelByte(s.Turned(), k) && Covered(chunks[..i], SourceRow(turn, s, k))
                                then rot[k] else 0
    {
      RotateRows(turn, s, src, newData, chunks[i].start, chunks[i].stop);
      forall k | 0 <= k < newData.Length
        ensures Covered(chunks[..i + 1], SourceRow(turn, s, k))
                <==> Covered(chunks[..i], SourceRow(turn, s, k)) || chunks[i].Contains(SourceRow(turn, s, k))
      {
        CoveredSnoc(chunks, i, SourceRow(turn, s, k));
      }
      i := i + 1;
    }
    assert chunks[..i] == chunks;
    r := newData[..];
    if RowsCovered(chunks, 0, s.height) {
      forall k | 0 <= k < |r|
        ensures r[k] == rot[k]
      {
        if IsPixelByte(s.Turned(), k) {
          WrittenSourceInPixels(turn, s, k);
        }
      }
    }
  }
}
