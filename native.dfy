/** C++ integer and byte behaviour the image code relies on: unsigned bytes,
    little-endian signed 32- and 16-bit fields read through `reinterpret_cast`
    on a little-endian host, and `/` that truncates toward zero. */
module Native {

  type byte = x: int | 0 <= x < 256

  const TWO_16: int := 0x1_0000
  const TWO_32: int := 0x1_0000_0000
  const INT32_MIN: int := -0x8000_0000
  const INT32_MAX: int := 0x7FFF_FFFF

  predicate IsInt32(v: int) {
    INT32_MIN <= v <= INT32_MAX
  }

  /** The two's-complement 32-bit value congruent to `v`: what a C++ `int`
      holds after an arithmetic result wraps around. */
  function Wrap32(v: int): (r: int)
    ensures IsInt32(r)
    ensures (r - v) % TWO_32 == 0
    ensures IsInt32(v) ==> r == v
  {
    var u := v % TWO_32;
    if u > INT32_MAX then u - TWO_32 else u
  }

  /** C++ integer division: the quotient is truncated toward zero. */
  function TruncDiv(a: int, b: int): (q: int)
    requires b != 0
    ensures a >= 0 && b > 0 ==> q == a / b
    ensures a < 0 && b > 0 ==> q == -((-a) / b)
  {
    var m := (if a < 0 then -a else a) / (if b < 0 then -b else b);
    if (a < 0) != (b < 0) then -m else m
  }

  function Min(a: int, b: int): int { if a < b then a else b }

  function Max(a: int, b: int): int { if a < b then b else a }

  /** The four bytes, lowest first, that a 32-bit store of `v` writes. */
  function Le32(v: int): (r: seq<byte>)
    ensures |r| == 4
  {
    var u := v % TWO_32;
    [u % 256, (u / 256) % 256, (u / 0x1_0000) % 256, u / 0x100_0000]
  }

  /** The unsigned value of the four bytes at `i`, lowest first. */
  function U32At(s: seq<byte>, i: int): (u: int)
    requires 0 <= i && i + 4 <= |s|
    ensures 0 <= u < TWO_32
  {
    s[i] as int + 256 * (s[i + 1] as int) + 0x1_0000 * (s[i + 2] as int) + 0x100_0000 * (s[i + 3] as int)
  }

  /** The signed 32-bit little-endian field at byte offset `i`. */
  function Int32At(s: seq<byte>, i: int): (v: int)
    requires 0 <= i && i + 4 <= |s|
    ensures IsInt32(v)
  {
    var u := U32At(s, i);
    if u > INT32_MAX then u - TWO_32 else u
  }

  /** The signed 16-bit little-endian field at byte offset `i`. */
  function Int16At(s: seq<byte>, i: int): (v: int)
    requires 0 <= i && i + 2 <= |s|
    ensures -0x8000 <= v < 0x8000
  {
    var u := s[i] as int + 256 * (s[i + 1] as int);
    if u >= 0x8000 then u - TWO_16 else u
  }

  lemma DigitsOfU32(u: int)
    requires 0 <= u < TWO_32
    ensures u % 256 + 256 * ((u / 256) % 256) + 0x1_0000 * ((u / 0x1_0000) % 256)
            + 0x100_0000 * (u / 0x100_0000) == u
  {
    var d0, q0 := u % 256, u / 256;
    var d1, q1 := q0 % 256, q0 / 256;
    var d2, d3 := q1 % 256, q1 / 256;
    assert u == d0 + 256 * q0;
    assert q0 == d1 + 256 * q1;
    assert q1 == d2 + 256 * d3;
    assert u / 0x1_0000 == q1;
    assert u / 0x100_0000 == d3;
  }

  /** Reading back a stored 32-bit field gives the stored value, wrapped to
      32 bits. */
  lemma {:induction false} Int32AtLe32(v: int)
    ensures Int32At(Le32(v), 0) == Wrap32(v)
  {
    var u := v % TWO_32;
    DigitsOfU32(u);
    assert U32At(Le32(v), 0) == u;
  }

  /** Storing a field that was read back rewrites the same four bytes. */
  lemma {:induction false} Le32Int32At(s: seq<byte>, i: int)
    requires 0 <= i && i + 4 <= |s|
    ensures Le32(Int32At(s, i)) == s[i..i + 4]
  {
    var u := U32At(s, i);
    assert Int32At(s, i) % TWO_32 == u;
    var r := Le32(Int32At(s, i));
    var q0 := u / 256;
    var hi := s[i + 1] as int + 256 * (s[i + 2] as int) + 0x1_0000 * (s[i + 3] as int);
    assert u == s[i] as int + 256 * hi;
    assert r[0] == s[i] && q0 == hi;
    var q1 := u / 0x1_0000;
    assert q1 == q0 / 256 == s[i + 2] as int + 256 * (s[i + 3] as int);
    assert r[1] == s[i + 1];
    assert r[2] == s[i + 2];
    assert u / 0x100_0000 == q1 / 256 == s[i + 3];
  }
}
