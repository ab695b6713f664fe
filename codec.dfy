/** The BMP container as the descriptor reads and writes it: a 14-byte file
    header (file size at byte 2, pixel-data offset at byte 10), a 40-byte info
    header (width at 4, height at 8, bits per pixel at 14, compression at 16,
    image size at 20), an optional palette, then the padded pixel rows.
    Files are byte sequences; a file system maps paths to their contents. */
module Codec {
  import opened Native
  import opened Geometry

  const FILE_HEADER_SIZE: int := 14
  const INFO_HEADER_SIZE: int := 40
  const HEADERS_SIZE: int := FILE_HEADER_SIZE + INFO_HEADER_SIZE

  /** The runtime errors the descriptor throws, one per message. */
  datatype Error =
    | CannotOpenFile
    | ShortFileHeader
    | ShortInfoHeader
    | InvalidDimensions
    | UnsupportedBitsPerPixel(bitsPerPixel: int)
    | InvalidDataSize
    | DataSizeMismatch
    | CannotOpenForData
    | BadAllocation
    | ShortImageData

  datatype Result<T> = Ok(value: T) | Err(error: Error)

  datatype Outcome = Pass | Fail(error: Error)

  datatype Option<T> = None | Some(value: T)

  type FileSystem = map<string, seq<byte>>

  /** validateImage: dimensions first, then the pixel format, then the size. */
  function ValidateImage(width: int, height: int, bitsPerPixel: int, dataSize: int): (r: Outcome)
    ensures r.Pass? <==> width > 0 && height > 0 && (bitsPerPixel == 24 || bitsPerPixel == 32) && dataSize > 0
    ensures width <= 0 || height <= 0 ==> r == Fail(InvalidDimensions)
    ensures width > 0 && height > 0 && bitsPerPixel != 24 && bitsPerPixel != 32
            ==> r == Fail(UnsupportedBitsPerPixel(bitsPerPixel))
    ensures width > 0 && height > 0 && (bitsPerPixel == 24 || bitsPerPixel == 32) && dataSize <= 0
            ==> r == Fail(InvalidDataSize)
  {
    if width <= 0 || height <= 0 then Fail(InvalidDimensions)
    else if bitsPerPixel != 24 && bitsPerPixel != 32 then Fail(UnsupportedBitsPerPixel(bitsPerPixel))
    else if dataSize <= 0 then Fail(InvalidDataSize)
    else Pass
  }

  /** With exact integers the size check never fires on its own: a validated
      width, height and format always give a positive buffer, and a passing
      descriptor has a walkable shape. */
  lemma ValidateDerivedSize(width: int, height: int, bitsPerPixel: int)
    ensures var s := Shape(width, height, bitsPerPixel);
            ValidateImage(width, height, bitsPerPixel, s.Size()).Pass?
            <==> width >= 1 && height >= 1 && (bitsPerPixel == 24 || bitsPerPixel == 32)
    ensures ValidateImage(width, height, bitsPerPixel, Shape(width, height, bitsPerPixel).Size()).Pass?
            ==> Shape(width, height, bitsPerPixel).Valid()
  {
    var s := Shape(width, height, bitsPerPixel);
    if width >= 1 && height >= 1 && (bitsPerPixel == 24 || bitsPerPixel == 32) {
      assert s.Valid();
      assert s.Size() >= 1;
    }
  }

  /** The geometry readHeaders takes from an info header: LE int32 width and
      height at 4 and 8, LE int16 bits per pixel at 14. */
  function HeaderShape(info: seq<byte>): (s: Shape)
    requires |info| == INFO_HEADER_SIZE
    ensures IsInt32(s.width) && IsInt32(s.height) && -0x8000 <= s.bitsPerPixel < 0x8000
  {
    Shape(Int32At(info, 4), Int32At(info, 8), Int16At(info, 14))
  }

  /** What loading a file yields: the short-read failures, then validation. */
  function LoadedShape(f: seq<byte>): (r: Result<Shape>)
    ensures r.Ok? <==> |f| >= HEADERS_SIZE
                       && ValidateImage(HeaderShape(f[14..54]).width, HeaderShape(f[14..54]).height,
                                        HeaderShape(f[14..54]).bitsPerPixel, HeaderShape(f[14..54]).Size()).Pass?
    ensures r.Ok? ==> r.value == HeaderShape(f[14..54]) && r.value.Valid()
                      && (r.value.bitsPerPixel == 24 || r.value.bitsPerPixel == 32)
    ensures |f| < FILE_HEADER_SIZE ==> r == Err(ShortFileHeader)
    ensures FILE_HEADER_SIZE <= |f| < HEADERS_SIZE ==> r == Err(ShortInfoHeader)
  {
    if |f| < FILE_HEADER_SIZE then Err(ShortFileHeader)
    else if |f| < HEADERS_SIZE then Err(ShortInfoHeader)
    else
      var s := HeaderShape(f[14..54]);
      ValidateDerivedSize(s.width, s.height, s.bitsPerPixel);
      match ValidateImage(s.width, s.height, s.bitsPerPixel, s.Size())
      case Pass => Ok(s)
      case Fail(e) => Err(e)
  }

  /** getImageData on the file at `file` (None: it cannot be opened): seek to
      `offset`, then read `dataSize` bytes. A seek before the start or past
      the end leaves nothing to read. */
  function ImageBytes(file: Option<seq<byte>>, offset: int, dataSize: int): (r: Result<seq<byte>>)
    ensures r.Ok? ==> |r.value| == dataSize
    ensures r.Ok? <==> file.Some? && dataSize >= 0
                       && (dataSize == 0 || (0 <= offset && offset + dataSize <= |file.value|))
    ensures r.Ok? && dataSize > 0 ==> r.value == file.value[offset..offset + dataSize]
    ensures file.None? ==> r == Err(CannotOpenForData)
    ensures file.Some? && dataSize < 0 ==> r == Err(BadAllocation)
  {
    match file
    case None => Err(CannotOpenForData)
    case Some(f) =>
      if dataSize < 0 then Err(BadAllocation)
      else
        var available := if 0 <= offset <= |f| then f[offset..] else [];
        if |available| < dataSize then Err(ShortImageData) else Ok(available[..dataSize])
  }

  /** `s` with the four bytes at `i` replaced by the LE encoding of `v`: a
      store through `reinterpret_cast<int*>`, or four masked shifts. */
  function Store32(s: seq<byte>, i: int, v: int): (r: seq<byte>)
    requires 0 <= i && i + 4 <= |s|
    ensures |r| == |s|
    ensures r[..i] == s[..i] && r[i + 4..] == s[i + 4..]
    ensures Int32At(r, i) == Wrap32(v)
  {
    Int32AtLe32(v);
    var r := s[..i] + Le32(v) + s[i + 4..];
    assert r[i..i + 4] == Le32(v);
    assert Int32At(r, i) == Int32At(Le32(v), 0);
    r
  }

  /** A header buffer after a read that delivered only `got` bytes: the
      delivered prefix, then the bytes the buffer held before. */
  function Overlay(buffer: seq<byte>, got: seq<byte>): (r: seq<byte>)
    requires |got| <= |buffer|
    ensures |r| == |buffer| && r[..|got|] == got && r[|got|..] == buffer[|got|..]
  {
    got + buffer[|got|..]
  }

  /** `*reinterpret_cast<int*>(&a[i]) = v` on a header array. */
  method StoreInt32(a: array<byte>, i: int, v: int)
    requires 0 <= i && i + 4 <= a.Length
    modifies a
    ensures a[..] == Store32(old(a[..]), i, v)
  {
    var bytes := Le32(v);
    a[i], a[i + 1], a[i + 2], a[i + 3] := bytes[0], bytes[1], bytes[2], bytes[3];
    assert a[..] == old(a[..])[..i] + bytes + old(a[..])[i + 4..];
  }

  /** The offset of the pixel data in the loaded file header, less the two
      headers: the palette length. */
  function PaletteSize(fileHeader: seq<byte>): int
    requires |fileHeader| == FILE_HEADER_SIZE
  {
    Int32At(fileHeader, 10) - HEADERS_SIZE
  }

  /** The saved file header: file size 54 + palette + data at byte 2, the
      data offset 54 + palette at byte 10, everything else copied. */
  function PatchFileHeader(fileHeader: seq<byte>, dataSize: int): (r: seq<byte>)
    requires |fileHeader| == FILE_HEADER_SIZE
    ensures |r| == FILE_HEADER_SIZE
    ensures r[..2] == fileHeader[..2] && r[6..10] == fileHeader[6..10]
    ensures Int32At(r, 2) == Wrap32(Int32At(fileHeader, 10) + dataSize)
    ensures r[10..] == fileHeader[10..] && Int32At(r, 10) == Int32At(fileHeader, 10)
  {
    var p := PaletteSize(fileHeader);
    var withSize := Store32(fileHeader, 2, HEADERS_SIZE + p + dataSize);
    Le32Int32At(fileHeader, 10);
    var r := Store32(withSize, 10, HEADERS_SIZE + p);
    assert r[10..] == Le32(Int32At(fileHeader, 10));
    assert r[..2] == withSize[..2] && r[6..10] == withSize[6..10];
    r
  }

  /** The saved info header: width, height, compression 0 and image size
      stored, every other byte copied. */
  function PatchInfoHeader(info: seq<byte>, width: int, height: int, dataSize: int): (r: seq<byte>)
    requires |info| == INFO_HEADER_SIZE
    ensures |r| == INFO_HEADER_SIZE
    ensures r[..4] == info[..4] && r[12..16] == info[12..16] && r[24..] == info[24..]
    ensures Int32At(r, 4) == Wrap32(width) && Int32At(r, 8) == Wrap32(height)
    ensures Int32At(r, 16) == 0 && Int32At(r, 20) == Wrap32(dataSize)
  {
    var a := Store32(info, 4, width);
    var b := Store32(a, 8, height);
    var c := Store32(b, 20, dataSize);
    var r := Store32(c, 16, 0);
    assert r[..4] == info[..4] by {
      assert r[..4] == c[..4] == b[..4] == a[..4];
    }
    assert r[12..16] == info[12..16] by {
      forall j | 12 <= j < 16
        ensures r[j] == info[j]
      {
        assert r[..16][j] == c[..16][j];
        assert c[..20][j] == b[..20][j];
        assert b[12..][j - 12] == a[12..][j - 12];
        assert a[8..][j - 8] == info[8..][j - 8];
      }
    }
    assert r[24..] == info[24..] by {
      forall j | 24 <= j < 40
        ensures r[j] == info[j]
      {
        assert r[20..][j - 20] == c[20..][j - 20];
        assert b[12..][j - 12] == a[12..][j - 12];
        assert a[8..][j - 8] == info[8..][j - 8];
      }
    }
    assert Int32At(r, 4) == Int32At(b, 4) by {
      assert r[4..8] == c[4..8] == b[4..8];
    }
    assert Int32At(r, 8) == Int32At(b, 8) by {
      assert r[8..12] == c[8..12] == b[8..12];
    }
    assert Int32At(r, 20) == Int32At(c, 20) by {
      assert r[20..24] == c[20..24];
    }
    r
  }

  /** A fresh copy of a header array, the `newFileHeader = fileHeader` copy. */
  method CopyHeader(src: array<byte>) returns (a: array<byte>)
    ensures fresh(a) && a[..] == src[..]
  {
    a := new byte[src.Length](i requires 0 <= i < src.Length reads src => src[i]);
  }

  /** The two stores into the copied file header. */
  method PatchFileHeaderInPlace(a: array<byte>, dataSize: int)
    requires a.Length == FILE_HEADER_SIZE
    modifies a
    ensures a[..] == PatchFileHeader(old(a[..]), dataSize)
  {
    var paletteSize := Int32At(a[..], 10) - HEADERS_SIZE;
    StoreInt32(a, 2, HEADERS_SIZE + paletteSize + dataSize);
    StoreInt32(a, 10, HEADERS_SIZE + paletteSize);
  }

  /** The four stores into the copied info header. */
  method PatchInfoHeaderInPlace(a: array<byte>, width: int, height: int, dataSize: int)
    requires a.Length == INFO_HEADER_SIZE
    modifies a
    ensures a[..] == PatchInfoHeader(old(a[..]), width, height, dataSize)
  {
    StoreInt32(a, 4, width);
    StoreInt32(a, 8, height);
    StoreInt32(a, 20, dataSize);
    StoreInt32(a, 16, 0);
  }

  /** The palette bytes saveToFile copies: `size` bytes from offset 54 of the
      original file into a zero-filled buffer; a short read leaves zeros. */
  function Palette(original: seq<byte>, size: int): (r: seq<byte>)
    requires size >= 0
    ensures |r| == size
    ensures forall i :: 0 <= i < size && HEADERS_SIZE + i < |original| ==> r[i] == original[HEADERS_SIZE + i]
    ensures forall i :: 0 <= i < size && HEADERS_SIZE + i >= |original| ==> r[i] == 0
  {
    seq(size, i requires 0 <= i => if HEADERS_SIZE + i < |original| then original[HEADERS_SIZE + i] else 0)
  }

  /** The palette bytes written: none unless the offset leaves room for one
      and the original file can be reopened. */
  function WrittenPalette(fileHeader: seq<byte>, original: Option<seq<byte>>): (r: seq<byte>)
    requires |fileHeader| == FILE_HEADER_SIZE
    ensures original.Some? && PaletteSize(fileHeader) > 0 ==> r == Palette(original.value, PaletteSize(fileHeader))
    ensures original.None? || PaletteSize(fileHeader) <= 0 ==> r == []
  {
    var p := PaletteSize(fileHeader);
    if p > 0 && original.Some? then Palette(original.value, p) else []
  }

  /** The bytes saveToFile writes: both patched headers, the palette, the
      pixel data. */
  function SavedFile(fileHeader: seq<byte>, info: seq<byte>, width: int, height: int,
                     original: Option<seq<byte>>, data: seq<byte>): (r: seq<byte>)
    requires |fileHeader| == FILE_HEADER_SIZE && |info| == INFO_HEADER_SIZE
    ensures var palette := WrittenPalette(fileHeader, original);
            && |r| == HEADERS_SIZE + |palette| + |data|
            && r[..14] == PatchFileHeader(fileHeader, |data|)
            && r[14..54] == PatchInfoHeader(info, width, height, |data|)
            && r[54..54 + |palette|] == palette
            && r[54 + |palette|..] == data
  {
    var palette := WrittenPalette(fileHeader, original);
    var r := PatchFileHeader(fileHeader, |data|) + PatchInfoHeader(info, width, height, |data|) + palette + data;
    assert r[..14] == PatchFileHeader(fileHeader, |data|);
    assert r[14..54] == PatchInfoHeader(info, width, height, |data|);
    assert r[54..54 + |palette|] == palette;
    r
  }

  /** With a readable original, the bytes between the headers and the saved
      data offset are the original's bytes at the same positions, and zeros
      where the original is shorter than the offset. */
  lemma SavedPalette(fileHeader: seq<byte>, info: seq<byte>, width: int, height: int,
                     original: seq<byte>, data: seq<byte>)
    requires |fileHeader| == FILE_HEADER_SIZE && |info| == INFO_HEADER_SIZE
    requires PaletteSize(fileHeader) > 0
    ensures var out, offset := SavedFile(fileHeader, info, width, height, Some(original), data), Int32At(fileHeader, 10);
            && Int32At(out, 10) == offset
            && |out| == offset + |data|
            && forall i :: HEADERS_SIZE <= i < offset ==> out[i] == if i < |original| then original[i] else 0
  {
    var out := SavedFile(fileHeader, info, width, height, Some(original), data);
    var offset := Int32At(fileHeader, 10);
    var palette := WrittenPalette(fileHeader, Some(original));
    var fh := PatchFileHeader(fileHeader, |data|);
    assert out[10..14] == fh[10..14];
    assert Int32At(out, 10) == Int32At(fh, 10);
    forall i | HEADERS_SIZE <= i < offset
      ensures out[i] == if i < |original| then original[i] else 0
    {
      assert out[i] == out[54..54 + |palette|][i - HEADERS_SIZE];
    }
  }

  /** The file the palette is read from while saving. Opening the output has
      already truncated it, so saving over the loaded path reads an empty
      file; a path that is not there gives no palette. */
  function PaletteSource(fs: FileSystem, filename: string, path: string): (r: Option<seq<byte>>)
    ensures path == filename ==> r == Some([])
    ensures path != filename ==> (r.Some? <==> path in fs) && (path in fs ==> r == Some(fs[path]))
  {
    var truncated := fs[filename := []];
    if path in truncated then Some(truncated[path]) else None
  }

  /** Loading a saved file gives back the geometry it was saved with, and
      the saved data offset is the loaded one, whatever the palette. */
  lemma SavedGeometryLoads(fileHeader: seq<byte>, info: seq<byte>, s: Shape,
                           original: Option<seq<byte>>, data: seq<byte>)
    requires |fileHeader| == FILE_HEADER_SIZE && |info| == INFO_HEADER_SIZE
    requires s.Valid() && (s.bitsPerPixel == 24 || s.bitsPerPixel == 32)
    requires IsInt32(s.width) && IsInt32(s.height) && Int16At(info, 14) == s.bitsPerPixel
    requires |data| == s.Size()
    ensures var out := SavedFile(fileHeader, info, s.width, s.height, original, data);
            && LoadedShape(out) == Ok(s)
            && Int32At(out, 10) == Int32At(fileHeader, 10)
  {
    var out := SavedFile(fileHeader, info, s.width, s.height, original, data);
    var ih := PatchInfoHeader(info, s.width, s.height, |data|);
    assert out[14..54] == ih;
    assert ih[14..16] == info[14..16] by {
      assert ih[12..16] == info[12..16];
    }
    assert Int16At(ih, 14) == Int16At(info, 14);
    assert HeaderShape(ih) == s;
    ValidateDerivedSize(s.width, s.height, s.bitsPerPixel);
    var fh := PatchFileHeader(fileHeader, |data|);
    assert out[10..14] == fh[10..14];
    assert Int32At(out, 10) == Int32At(fh, 10);
  }

  /** Loading a saved file gives back its geometry, and the saved data
      offset still points at the pixel bytes whenever the palette was
      carried over or there is none. */
  lemma {:induction false} SaveLoadRoundTrip(fileHeader: seq<byte>, info: seq<byte>, s: Shape,
                                             original: Option<seq<byte>>, data: seq<byte>)
    requires |fileHeader| == FILE_HEADER_SIZE && |info| == INFO_HEADER_SIZE
    requires s.Valid() && (s.bitsPerPixel == 24 || s.bitsPerPixel == 32)
    requires IsInt32(s.width) && IsInt32(s.height) && Int16At(info, 14) == s.bitsPerPixel
    requires |data| == s.Size()
    requires PaletteSize(fileHeader) == 0 || (PaletteSize(fileHeader) > 0 && original.Some?)
    ensures var out := SavedFile(fileHeader, info, s.width, s.height, original, data);
            && LoadedShape(out) == Ok(s)
            && Int32At(out, 10) == Int32At(fileHeader, 10)
            && ImageBytes(Some(out), Int32At(out, 10), s.Size()) == Ok(data)
  {
    var out := SavedFile(fileHeader, info, s.width, s.height, original, data);
    SavedGeometryLoads(fileHeader, info, s, original, data);
    var palette := WrittenPalette(fileHeader, original);
    assert Int32At(out, 10) == HEADERS_SIZE + |palette|;
    assert out[HEADERS_SIZE + |palette|..][..s.Size()] == data;
  }

  /** A loaded offset below 54 is never checked. Saving writes no palette and
      keeps that offset, so reading the saved pixels back starts inside the
      headers: a non-negative offset returns header bytes first, and a
      negative one finds nothing to read. */
  lemma LowOffsetReadsHeaders(fileHeader: seq<byte>, info: seq<byte>, width: int, height: int,
                              original: Option<seq<byte>>, data: seq<byte>)
    requires |fileHeader| == FILE_HEADER_SIZE && |info| == INFO_HEADER_SIZE
    requires PaletteSize(fileHeader) < 0 && |data| >= HEADERS_SIZE
    ensures var out, offset := SavedFile(fileHeader, info, width, height, original, data), Int32At(fileHeader, 10);
            var headers := PatchFileHeader(fileHeader, |data|) + PatchInfoHeader(info, width, height, |data|);
            && (0 <= offset ==> ImageBytes(Some(out), Int32At(out, 10), |data|).Ok?
                                && ImageBytes(Some(out), Int32At(out, 10), |data|).value[..HEADERS_SIZE - offset]
                                   == headers[offset..])
            && (offset < 0 ==> ImageBytes(Some(out), Int32At(out, 10), |data|) == Err(ShortImageData))
  {
    var out := SavedFile(fileHeader, info, width, height, original, data);
    var offset := Int32At(fileHeader, 10);
    var fh := PatchFileHeader(fileHeader, |data|);
    var headers := fh + PatchInfoHeader(info, width, height, |data|);
    assert out[10..14] == fh[10..14];
    assert Int32At(out, 10) == Int32At(fh, 10);
    assert |out| == HEADERS_SIZE + |data|;
    assert out[..HEADERS_SIZE] == headers;
    if 0 <= offset {
      assert out[offset..][..HEADERS_SIZE - offset] == headers[offset..];
    }
  }

  /** When the loaded path cannot be reopened the palette is dropped but the
      saved offset still skips it, so the saved pixels cannot be read back
      through that offset. */
  lemma DroppedPaletteUnreadable(fileHeader: seq<byte>, info: seq<byte>, width: int, height: int,
                                 data: seq<byte>)
    requires |fileHeader| == FILE_HEADER_SIZE && |info| == INFO_HEADER_SIZE
    requires PaletteSize(fileHeader) > 0 && |data| >= 1
    ensures var out := SavedFile(fileHeader, info, width, height, None, data);
            ImageBytes(Some(out), Int32At(out, 10), |data|) == Err(ShortImageData)
  {
    var out := SavedFile(fileHeader, info, width, height, None, data);
    var fh := PatchFileHeader(fileHeader, |data|);
    assert out[10..14] == fh[10..14];
    assert Int32At(out, 10) == Int32At(fh, 10);
  }
}
