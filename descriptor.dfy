/** The image descriptor BMPImage: the raw headers, the geometry fields the
    transforms update in place, and the members both variants share line for
    line (loading, saving, reading the pixels, the sequential transforms,
    the getters), with the original variant's parallel transforms and their
    static per-thread split. */
module Descriptor {
  import opened Native
  import opened Geometry
  import opened Partition
  import opened Codec
  import opened Rotation
  import opened Blur

  /** How the parallel members were compiled: with OpenMP, or with the
      std::thread fallback. */
  datatype Backend = OpenMp | StdThreads

  /** n zero bytes. */
  function Zeros(n: nat): (r: seq<byte>)
    ensures |r| == n && forall i :: 0 <= i < n ==> r[i] == 0
  {
    seq(n, _ => 0)
  }

  /** A fresh array of n zero bytes, as a value-initialised header. */
  method ZeroedArray(n: nat) returns (a: array<byte>)
    ensures fresh(a) && a[..] == Zeros(n)
  {
    a := new byte[n](_ => 0);
    assert a[..] == Zeros(n);
  }

  class BmpImage {
    const fileHeader: array<byte>
    const infoHeader: array<byte>
    var width: int
    var height: int
    var bitsPerPixel: int
    var rowSize: int
    var dataSize: int
    var path: string

    /** The header blobs have their fixed sizes. */
    predicate Valid()
      reads this
    {
      fileHeader.Length == FILE_HEADER_SIZE && infoHeader.Length == INFO_HEADER_SIZE
    }

    function ImageShape(): Shape
      reads this
    {
      Shape(width, height, bitsPerPixel)
    }

    /** The geometry fields other than the stored ones. */
    function Fields(): (int, int, int, int, int)
      reads this
    {
      (width, height, bitsPerPixel, rowSize, dataSize)
    }

    /** rowSize and dataSize follow from width, height and bits per pixel, as
        the constructor, the header reads and the rotations set them. */
    predicate Derived()
      reads this
    {
      DerivedSizes(ImageShape(), rowSize, dataSize)
    }

    /** A descriptor whose buffer a transform can walk. */
    predicate Ready()
      reads this
    {
      Valid() && Derived() && ImageShape().Valid()
    }

    lemma ReadySize()
      requires Ready()
      ensures dataSize == ImageShape().Size() && rowSize == ImageShape().Stride()
    {
    }

    /** Zeroed headers and geometry, empty path. */
    constructor()
      ensures Valid() && Fields() == (0, 0, 0, 0, 0) && path == ""
      ensures fresh(fileHeader) && fresh(infoHeader)
      ensures fileHeader[..] == Zeros(FILE_HEADER_SIZE) && infoHeader[..] == Zeros(INFO_HEADER_SIZE)
    {
      var fh := ZeroedArray(FILE_HEADER_SIZE);
      var ih := ZeroedArray(INFO_HEADER_SIZE);
      fileHeader, infoHeader := fh, ih;
      width, height, bitsPerPixel, rowSize, dataSize := 0, 0, 0, 0, 0;
      path := "";
    }

    /** loadFromFile with readHeaders: the path is recorded first; each
        header read stops at the end of the file, having overwritten what it
        got; the geometry is taken and derived before it is validated, so a
        rejected file still leaves its values in the fields. */
    method LoadFromFile(fs: FileSystem, filename: string) returns (out: Outcome)
      requires Valid()
      modifies this, fileHeader, infoHeader
      ensures Valid() && path == filename
      ensures filename !in fs ==> out == Fail(CannotOpenFile) && Fields() == old(Fields())
                                  && fileHeader[..] == old(fileHeader[..]) && infoHeader[..] == old(infoHeader[..])
      ensures filename in fs ==>
                var f := fs[filename];
                && out == (match LoadedShape(f) case Ok(_) => Pass case Err(e) => Fail(e))
                && fileHeader[..] == Overlay(old(fileHeader[..]), f[..Min(FILE_HEADER_SIZE, |f|)])
                && infoHeader[..] == (if |f| < FILE_HEADER_SIZE then old(infoHeader[..])
                                      else Overlay(old(infoHeader[..]), f[FILE_HEADER_SIZE..Min(HEADERS_SIZE, |f|)]))
                && (|f| < HEADERS_SIZE ==> Fields() == old(Fields()))
                && (|f| >= HEADERS_SIZE ==> ImageShape() == HeaderShape(f[14..54]) && Derived())
      ensures out.Pass? ==> Ready() && (bitsPerPixel == 24 || bitsPerPixel == 32)
                            && IsInt32(width) && IsInt32(height) && Int16At(infoHeader[..], 14) == bitsPerPixel
    {
      path := filename;
      if filename !in fs {
        return Fail(CannotOpenFile);
      }
      var f := fs[filename];
      var got := Min(FILE_HEADER_SIZE, |f|);
      forall i | 0 <= i < got {
        fileHeader[i] := f[i];
      }
      assert fileHeader[..] == Overlay(old(fileHeader[..]), f[..got]);
      if got != FILE_HEADER_SIZE {
        return Fail(ShortFileHeader);
      }
      var gotInfo := Min(INFO_HEADER_SIZE, |f| - FILE_HEADER_SIZE);
      forall i | 0 <= i < gotInfo {
        infoHeader[i] := f[FILE_HEADER_SIZE + i];
      }
      assert infoHeader[..] == Overlay(old(infoHeader[..]), f[FILE_HEADER_SIZE..FILE_HEADER_SIZE + gotInfo]);
      if gotInfo != INFO_HEADER_SIZE {
        return Fail(ShortInfoHeader);
      }
      assert infoHeader[..] == f[14..54];
      width := Int32At(infoHeader[..], 4);
      height := Int32At(infoHeader[..], 8);
      bitsPerPixel := Int16At(infoHeader[..], 14);
      rowSize := RowSize(width, bitsPerPixel);
      dataSize := rowSize * height;
      out := ValidateImage(width, height, bitsPerPixel, dataSize);
      ValidateDerivedSize(width, height, bitsPerPixel);
    }

    method SetPath(filepath: string)
      modifies this
      ensures path == filepath && Fields() == old(Fields())
    {
      path := filepath;
    }

    /** saveToFile: the size check comes before anything is written; the
        headers are copied and patched for the current geometry; the palette
        is re-read from the loaded path after the output has been opened. */
    method SaveToFile(fs: FileSystem, filename: string, data: seq<byte>) returns (r: Result<FileSystem>)
      requires Valid()
      ensures |data| != dataSize ==> r == Err(DataSizeMismatch)
      ensures |data| == dataSize ==>
                r == Ok(fs[filename := SavedFile(fileHeader[..], infoHeader[..], width, height,
                                                 PaletteSource(fs, filename, path), data)])
    {
      if |data| != dataSize {
        return Err(DataSizeMismatch);
      }
      var newFileHeader := CopyHeader(fileHeader);
      var newInfoHeader := CopyHeader(infoHeader);
      var paletteSize := Int32At(fileHeader[..], 10) - HEADERS_SIZE;
      PatchFileHeaderInPlace(newFileHeader, dataSize);
      PatchInfoHeaderInPlace(newInfoHeader, width, height, dataSize);
      var palette := [];
      if paletteSize > 0 {
        var source := PaletteSource(fs, filename, path);
        if source.Some? {
          palette := Palette(source.value, paletteSize);
        }
      }
      var bytes := newFileHeader[..] + newInfoHeader[..] + palette + data;
      r := Ok(fs[filename := bytes]);
    }

    /** getImageData: `dataSize` bytes from the offset in file-header bytes
        10-13 of the file at the recorded path. */
    function GetImageData(fs: FileSystem): (r: Result<seq<byte>>)
      requires Valid()
      reads this, fileHeader
      ensures var offset := Int32At(fileHeader[..], 10);
              && (r.Ok? <==> path in fs && dataSize >= 0
                             && (dataSize == 0 || (0 <= offset && offset + dataSize <= |fs[path]|)))
              && (r.Ok? ==> |r.value| == dataSize)
              && (r.Ok? && dataSize > 0 ==> r.value == fs[path][offset..offset + dataSize])
    {
      ImageBytes(if path in fs then Some(fs[path]) else None, Int32At(fileHeader[..], 10), dataSize)
    }

    /** The first steps of every rotation: swap width and height, then derive
        the new stride and size. */
    method TurnGeometry()
      requires Ready()
      modifies this
      ensures Ready() && ImageShape() == old(ImageShape()).Turned() && path == old(path)
    {
      width, height := height, width;
      rowSize := RowSize(width, bitsPerPixel);
      dataSize := rowSize * height;
    }

    /** rotateClockwise / rotateCounterClockwise: size check before any field
        changes, then the turned geometry and the rotated buffer. */
    method Rotate(turn: Turn, data: seq<byte>) returns (r: Result<seq<byte>>)
      requires Ready()
      modifies this
      ensures Ready() && path == old(path)
      ensures |data| != old(dataSize) ==> r == Err(DataSizeMismatch) && Fields() == old(Fields())
      ensures |data| == old(dataSize) ==>
                && ImageShape() == old(ImageShape()).Turned()
                && r == Ok(Rotated(turn, old(ImageShape()), data))
                && |r.value| == dataSize
    {
      if |data| != dataSize {
        return Err(DataSizeMismatch);
      }
      var oldShape := ImageShape();
      TurnGeometry();
      var newData := RotateBuffer(turn, oldShape, data);
      ReadySize();
      r := Ok(newData);
    }

    /** applyGaussianFilter: size check, then the filtered copy; the geometry
        is untouched. */
    method ApplyGaussianFilter(data: seq<byte>) returns (r: Result<seq<byte>>)
      requires Ready()
      ensures |data| != dataSize ==> r == Err(DataSizeMismatch)
      ensures |data| == dataSize ==> r == Ok(Blurred(ImageShape(), data))
    {
      if |data| != dataSize {
        return Err(DataSizeMismatch);
      }
      var filtered := BlurBuffer(ImageShape(), data);
      r := Ok(filtered);
    }

    /** The original variant's rotation chunks: every row under OpenMP, else
        thread t of n takes rows [t * (H / n), (t + 1) * (H / n)), the last
        thread up to H. */
    static function StaticRotationChunks(backend: Backend, oldHeight: int, numThreads: int): (cs: seq<Chunk>)
      requires oldHeight >= 1 && numThreads >= 1
      ensures Tiles(cs, 0, oldHeight)
    {
      if backend.OpenMp? then (OneRowChunksTile(oldHeight); OneRowChunks(oldHeight))
      else (StaticRangesTile(oldHeight, numThreads); StaticRanges(oldHeight, numThreads))
    }

    /** The original variant's filter chunks: the same split of the
        height - 2 interior rows, moved down one row. */
    static function StaticFilterChunks(backend: Backend, height: int, numThreads: int): (cs: seq<Chunk>)
      requires height >= 1 && numThreads >= 1
      ensures AllWithin(cs, 1, height - 1) && RowsCovered(cs, 1, height - 1)
    {
      if backend.OpenMp? then
        var rows := OneRowChunks(Max(0, height - 2));
        OneRowChunksTile(Max(0, height - 2));
        ShiftedTiles(rows, 0, Max(0, height - 2), 1);
        TilingCovers(Shifted(rows, 1), 1, Max(0, height - 2) + 1);
        Shifted(rows, 1)
      else if height >= 2 then
        var ranges := StaticRanges(height - 2, numThreads);
        StaticRangesTile(height - 2, numThreads);
        ShiftedTiles(ranges, 0, height - 2, 1);
        TilingCovers(Shifted(ranges, 1), 1, height - 1);
        Shifted(ranges, 1)
      else
        StaticRangesOfMinusOne(numThreads);
        Shifted(StaticRanges(height - 2, numThreads), 1)
    }

    /** rotateClockwiseParallel / rotateCounterClockwiseParallel of the
        original variant: the same result as the sequential rotation. */
    method RotateParallel(turn: Turn, data: seq<byte>, numThreads: int, hardware: nat, backend: Backend)
      returns (r: Result<seq<byte>>)
      requires Ready()
      modifies this
      ensures Ready() && path == old(path)
      ensures |data| != old(dataSize) ==> r == Err(DataSizeMismatch) && Fields() == old(Fields())
      ensures |data| == old(dataSize) ==>
                && ImageShape() == old(ImageShape()).Turned()
                && r == Ok(Rotated(turn, old(ImageShape()), data))
                && |r.value| == dataSize
    {
      if |data| != dataSize {
        return Err(DataSizeMismatch);
      }
      var oldShape := ImageShape();
      TurnGeometry();
      var threads := ThreadCount(numThreads, hardware);
      var chunks := StaticRotationChunks(backend, oldShape.height, threads);
      TilingCovers(chunks, 0, oldShape.height);
      var newData := RotateChunked(turn, oldShape, data, chunks);
      ReadySize();
      r := Ok(newData);
    }

    /** applyGaussianFilterParallel of the original variant: the same result
        as the sequential filter, for every height. */
    method ApplyGaussianFilterParallel(data: seq<byte>, numThreads: int, hardware: nat, backend: Backend)
      returns (r: Result<seq<byte>>)
      requires Ready()
      ensures |data| != dataSize ==> r == Err(DataSizeMismatch)
      ensures |data| == dataSize ==> r == Ok(Blurred(ImageShape(), data))
    {
      if |data| != dataSize {
        return Err(DataSizeMismatch);
      }
      var threads := ThreadCount(numThreads, hardware);
      var chunks := StaticFilterChunks(backend, height, threads);
      var filtered := BlurChunked(ImageShape(), data, chunks);
      r := Ok(filtered);
    }

    function GetWidth(): int reads this { width }

    function GetHeight(): int reads this { height }

    function GetBitsPerPixel(): int reads this { bitsPerPixel }

    function GetDataSize(): int reads this { dataSize }
  }
}
