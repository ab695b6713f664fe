/** Pixel-buffer geometry: the padded row stride, the buffer size, and the
    addressing of a byte by (row, column, channel) through stride arithmetic. */
module Geometry {
  import opened Native

  /** calculateRowSize: `width * (bpp / 8)` rounded up by `(n + 3) & ~3`.
      On two's-complement integers clearing the two low bits rounds down to a
      multiple of 4, which is `/ 4 * 4` with Dafny's floor division. */
  function RowSize(width: int, bitsPerPixel: int): int {
    (width * TruncDiv(bitsPerPixel, 8) + 3) / 4 * 4
  }

  /** The stride is the least multiple of 4 that holds a row of pixels. */
  lemma RowSizeIsPaddedRow(width: int, bitsPerPixel: int)
    requires width >= 0 && bitsPerPixel >= 0
    ensures var n, r := width * (bitsPerPixel / 8), RowSize(width, bitsPerPixel);
            r % 4 == 0 && n <= r < n + 4
  {
    var n := width * (bitsPerPixel / 8);
    assert TruncDiv(bitsPerPixel, 8) == bitsPerPixel / 8;
    assert RowSize(width, bitsPerPixel) == (n + 3) / 4 * 4;
  }

  /** The strides quoted for 24-bit images 5 and 4 pixels wide. */
  lemma RowSizeExamples()
    ensures RowSize(5, 24) == 16 && RowSize(4, 24) == 12
  {
  }

  lemma MulLeft(a: int, b: int, c: int)
    requires a <= b && c >= 0
    ensures a * c <= b * c
  {
  }

  lemma StrideBounds(s: Shape)
    ensures s.Valid() ==> var st := RowSize(s.width, s.bitsPerPixel);
      st >= s.width * s.BytesPerPixel() >= 1 && st % 4 == 0
  {
    if s.Valid() {
      RowSizeIsPaddedRow(s.width, s.bitsPerPixel);
      MulLeft(1, s.width, s.BytesPerPixel());
    }
  }

  lemma SizeBounds(s: Shape)
    ensures s.Valid() ==> s.Stride() * s.height >= s.Stride() >= 1
  {
    if s.Valid() { MulLeft(1, s.height, s.Stride()); }
  }

  lemma RowBelowHeight(s: Shape, k: int)
    requires s.Valid() && 0 <= k
    ensures k < s.Size() ==> k / s.Stride() < s.height
  {
    var st := s.Stride();
    var q := k / st;
    assert k == q * st + k % st;
    if k < s.Size() && q >= s.height {
      MulLeft(s.height, q, st);
      assert false;
    }
  }

  /** Width, height and bits per pixel of one image; the stride and the
      buffer size derive from them as the descriptor derives them. */
  datatype Shape = Shape(width: int, height: int, bitsPerPixel: int) {

    /** Image dimensions a transform can walk: at least one pixel and at
        least one byte per pixel. */
    predicate Valid() {
      width >= 1 && height >= 1 && bitsPerPixel >= 8
    }

    function BytesPerPixel(): (b: int)
      ensures Valid() ==> b >= 1 && b == bitsPerPixel / 8
    {
      TruncDiv(bitsPerPixel, 8)
    }

    function Stride(): (st: int)
      ensures Valid() ==> st >= width * BytesPerPixel() >= 1 && st % 4 == 0
    {
      StrideBounds(this);
      RowSize(width, bitsPerPixel)
    }

    function Size(): (n: int)
      ensures Valid() ==> n >= Stride() >= 1
    {
      SizeBounds(this);
      Stride() * height
    }

    /** The shape after a quarter turn: width and height swapped. */
    function Turned(): Shape {
      Shape(height, width, bitsPerPixel)
    }
  }

  /** rowSize and dataSize as calculateRowSize and the size computation
      derive them from a shape. */
  predicate DerivedSizes(s: Shape, rowSize: int, dataSize: int) {
    rowSize == RowSize(s.width, s.bitsPerPixel) && dataSize == rowSize * s.height
  }

  /** Byte coordinates: pixel row, pixel column and channel within the pixel. */
  datatype Pos = Pos(row: int, col: int, chan: int)

  predicate InPixels(s: Shape, p: Pos) {
    0 <= p.row < s.height && 0 <= p.col < s.width && 0 <= p.chan < s.BytesPerPixel()
  }

  /** `row * rowSize + col * bytesPerPixel + chan`, the address every loop of
      the transforms computes. */
  function Offset(s: Shape, p: Pos): int {
    p.row * s.Stride() + p.col * s.BytesPerPixel() + p.chan
  }

  lemma DivModUnique(n: int, d: int, q: int, r: int)
    requires d > 0 && 0 <= r < d && n == q * d + r
    ensures n / d == q && n % d == r
  {
    var q', r' := n / d, n % d;
    assert n == q' * d + r';
    if q' > q {
      MulLeft(q + 1, q', d);
      assert false;
    } else if q' < q {
      MulLeft(q' + 1, q, d);
      assert false;
    }
  }

  lemma Decompose(k: int, st: int, b: int)
    requires k >= 0 && st >= 1 && b >= 1
    ensures k / st >= 0 && (k % st) / b >= 0 && 0 <= (k % st) % b < b
    ensures (k / st) * st + ((k % st) / b) * b + (k % st) % b == k
  {
    var q, r := k / st, k % st;
    assert k == q * st + r;
    assert r == (r / b) * b + r % b;
  }

  /** The coordinates of byte `k` of a buffer of shape `s`. */
  function PosOf(s: Shape, k: int): (p: Pos)
    requires s.Valid() && 0 <= k
    ensures 0 <= p.row && 0 <= p.col && 0 <= p.chan < s.BytesPerPixel()
    ensures k < s.Size() ==> p.row < s.height
    ensures Offset(s, p) == k
  {
    var st, b := s.Stride(), s.BytesPerPixel();
    Decompose(k, st, b);
    RowBelowHeight(s, k);
    Pos(k / st, (k % st) / b, (k % st) % b)
  }

  /** Lexicographic progress of the (row, col, chan) loops: `p` was visited
      before the loops reached (y, x, c). */
  predicate Before(p: Pos, y: int, x: int, c: int) {
    p.row < y || (p.row == y && (p.col < x || (p.col == x && p.chan < c)))
  }

  /** Byte `k` holds colour (it is not row padding). */
  predicate IsPixelByte(s: Shape, k: int)
    requires s.Valid() && 0 <= k
  {
    PosOf(s, k).col < s.width
  }

  /** Offsets of pixel bytes are in the buffer and decode back to their
      coordinates: distinct coordinates never share a byte. */
  lemma {:induction false} PosOfOffset(s: Shape, p: Pos)
    requires s.Valid() && InPixels(s, p)
    ensures 0 <= Offset(s, p) < s.Size()
    ensures PosOf(s, Offset(s, p)) == p
    ensures IsPixelByte(s, Offset(s, p))
  {
    var st, b := s.Stride(), s.BytesPerPixel();
    var k := Offset(s, p);
    CoordinatesOf(k, st, b, s.width, s.height, p.row, p.col, p.chan);
    assert PosOf(s, k) == Pos(k / st, (k % st) / b, (k % st) % b);
  }

  /** PosOfOffset on plain integers: the address of an in-range (row, col,
      chan) lies in the buffer and divides back into its coordinates. */
  lemma CoordinatesOf(k: int, st: int, b: int, w: int, h: int, row: int, col: int, chan: int)
    requires b >= 1 && w * b <= st && 0 <= row < h && 0 <= col < w && 0 <= chan < b
    requires k == row * st + col * b + chan
    ensures 0 <= k < st * h
    ensures k / st == row && (k % st) / b == col && (k % st) % b == chan
  {
    var inRow := col * b + chan;
    MulLeft(0, col, b);
    MulLeft(col + 1, w, b);
    assert 0 <= inRow < st;
    MulLeft(0, row, st);
    MulLeft(row + 1, h, st);
    DivModUnique(k, st, row, inRow);
    DivModUnique(inRow, b, col, chan);
  }

  /** A pixel byte of the buffer has in-range coordinates. */
  lemma PixelByteInPixels(s: Shape, k: int)
    requires s.Valid() && 0 <= k < s.Size() && IsPixelByte(s, k)
    ensures InPixels(s, PosOf(s, k))
  {
  }
}
