/** First-byte classification (format.go) and the shape each first byte announces. */
module Format {
  import opened Bytes
  import opened Bits

  const NIL: byte := 0xc0
  const FALSE: byte := 0xc2
  const TRUE: byte := 0xc3
  const BIN8: byte := 0xc4
  const BIN16: byte := 0xc5
  const BIN32: byte := 0xc6
  const EXT8: byte := 0xc7
  const EXT16: byte := 0xc8
  const EXT32: byte := 0xc9
  const FLOAT32: byte := 0xca
  const FLOAT64: byte := 0xcb
  const UINT8: byte := 0xcc
  const UINT16: byte := 0xcd
  const UINT32: byte := 0xce
  const UINT64: byte := 0xcf
  const INT8: byte := 0xd0
  const INT16: byte := 0xd1
  const INT32: byte := 0xd2
  const INT64: byte := 0xd3
  const FIXEXT1: byte := 0xd4
  const FIXEXT2: byte := 0xd5
  const FIXEXT4: byte := 0xd6
  const FIXEXT8: byte := 0xd7
  const FIXEXT16: byte := 0xd8
  const STR8: byte := 0xd9
  const STR16: byte := 0xda
  const STR32: byte := 0xdb
  const ARRAY16: byte := 0xdc
  const ARRAY32: byte := 0xdd
  const MAP16: byte := 0xde
  const MAP32: byte := 0xdf

  const FIXMAP_PREFIX: byte := 0x80
  const FIXARRAY_PREFIX: byte := 0x90
  const FIXSTR_PREFIX: byte := 0xa0

  // The masks of format.go, each with the byte range the MessagePack "Formats" table gives it.

  /** The high n and the low k bits of a byte make up the byte. */
  lemma Halved(b: byte, n: nat, k: nat)
    requires n + k == 8
    ensures And(b, Shl(TwoTo(n) - 1, k)) == Shr(b, k) * TwoTo(k)
    ensures And(b, TwoTo(k) - 1) < TwoTo(k)
    ensures b == Shr(b, k) * TwoTo(k) + And(b, TwoTo(k) - 1)
  {
    hide And, Shl, Shr;
    assert TwoTo(8) == 0x100;
    HighBits(b, n, k);
    LowBits(b, k);
    ShlTimes(Shr(b, k), k);
  }

  /** The masks used below, as ranges and remainders. */
  lemma Masks(b: byte)
    ensures And(b, 0x80) == 0 <==> b <= 0x7f
    ensures And(b, 0xf0) == FIXMAP_PREFIX <==> 0x80 <= b <= 0x8f
    ensures And(b, 0xf0) == FIXARRAY_PREFIX <==> 0x90 <= b <= 0x9f
    ensures And(b, 0xe0) == FIXSTR_PREFIX <==> 0xa0 <= b <= 0xbf
    ensures And(b, 0x0f) == b % 0x10 && And(b, 0x1f) == b % 0x20
  {
    hide And, Shr;
    assert TwoTo(1) == 2 && TwoTo(3) == 8 && TwoTo(4) == 0x10 && TwoTo(5) == 0x20 && TwoTo(7) == 0x80;
    assert Shl(1, 7) == 0x80 && Shl(0x0f, 4) == 0xf0 && Shl(7, 5) == 0xe0;
    Halved(b, 1, 7);
    Halved(b, 4, 4);
    Halved(b, 3, 5);
  }

  predicate IsPositiveFixint(b: byte)
    ensures IsPositiveFixint(b) <==> b <= 0x7f
  {
    Masks(b);
    And(b, 0x80) == 0
  }

  predicate IsNegativeFixint(b: byte) {
    b >= 0xe0
  }

  predicate IsFixmap(b: byte)
    ensures IsFixmap(b) <==> 0x80 <= b <= 0x8f
  {
    Masks(b);
    And(b, 0xf0) == FIXMAP_PREFIX
  }

  predicate IsFixarray(b: byte)
    ensures IsFixarray(b) <==> 0x90 <= b <= 0x9f
  {
    Masks(b);
    And(b, 0xf0) == FIXARRAY_PREFIX
  }

  predicate IsFixstr(b: byte)
    ensures IsFixstr(b) <==> 0xa0 <= b <= 0xbf
  {
    Masks(b);
    And(b, 0xe0) == FIXSTR_PREFIX
  }

  /** fixmapLen and fixarrayLen: the low four bits. */
  function Low4(b: byte): (n: nat)
    ensures n == b % 0x10
  {
    Masks(b);
    And(b, 0x0f)
  }

  /** fixstrLen: the low five bits. */
  function Low5(b: byte): (n: nat)
    ensures n == b % 0x20
  {
    Masks(b);
    And(b, 0x1f)
  }

  lemma OrOfBytes(a: byte, b: byte)
    ensures Or(a, b) < 0x100
  {
    hide Or;
    assert TwoTo(8) == 0x100;
    OrBound(a, b, 8);
  }

  /** prefix | byte(n), as the encoder builds a one-byte header; of a Go int only the low byte counts. */
  function Tag(prefix: byte, n: int): (b: byte) {
    OrOfBytes(prefix, n % 0x100);
    Or(prefix, n % 0x100)
  }

  /** The prefixes leave the bits of the lengths free: a length that fits is added. */
  lemma Tagged(prefix: byte, n: nat)
    requires prefix == FIXMAP_PREFIX || prefix == FIXARRAY_PREFIX || prefix == FIXSTR_PREFIX
    requires n < if prefix == FIXSTR_PREFIX then 0x20 else 0x10
    ensures Tag(prefix, n) == prefix + n
  {
    hide Or;
    assert TwoTo(4) == 0x10 && TwoTo(5) == 0x20;
    assert Shl(8, 4) == FIXMAP_PREFIX && Shl(9, 4) == FIXARRAY_PREFIX && Shl(5, 5) == FIXSTR_PREFIX;
    OrApart(prefix / 0x10, 4, if n < 0x10 then n else 0);
    OrApart(prefix / 0x20, 5, n);
  }

  datatype Kind = Str | Bin | Arr | Map | Ext

  /** Where a count is stored: in the format byte itself, or in the bytes that follow it. */
  datatype CountField = Inline(n: nat) | Following(width: nat)

  datatype Shape =
    | Scalar(size: nat)                      // `size` payload bytes and nothing else
    | Counted(kind: Kind, field: CountField) // a count, then a payload that depends on it
    | Unused

  /** The "Formats" table of the MessagePack specification. */
  function ShapeOf(b: byte): Shape {
    if b <= 0x7f || b >= 0xe0 then Scalar(0)
    else if b <= 0x8f then Counted(Map, Inline(b - 0x80))
    else if b <= 0x9f then Counted(Arr, Inline(b - 0x90))
    else if b <= 0xbf then Counted(Str, Inline(b - 0xa0))
    else if b == 0xc1 then Unused
    else if b <= 0xc3 then Scalar(0)
    else if b <= 0xc6 then Counted(Bin, Following(Pow2(b - 0xc4)))
    else if b <= 0xc9 then Counted(Ext, Following(Pow2(b - 0xc7)))
    else if b <= 0xcb then Scalar(Pow2(b - 0xc8))
    else if b <= 0xcf then Scalar(Pow2(b - 0xcc))
    else if b <= 0xd3 then Scalar(Pow2(b - 0xd0))
    else if b <= 0xd8 then Counted(Ext, Inline(Pow2(b - 0xd4)))
    else if b <= 0xdb then Counted(Str, Following(Pow2(b - 0xd9)))
    else if b <= 0xdd then Counted(Arr, Following(Pow2(b - 0xdb)))
    else Counted(Map, Following(Pow2(b - 0xdd)))
  }

  function Pow2(n: nat): (r: nat)
    requires n <= 4
    ensures r > 0
  {
    if n == 0 then 1 else if n == 1 then 2 else if n == 2 then 4 else if n == 3 then 8 else 16
  }

  predicate IsStr(b: byte) {
    ShapeOf(b).Counted? && ShapeOf(b).kind.Str?
  }

  function Width(field: CountField): nat {
    match field case Inline(_) => 0 case Following(w) => w
  }

  /** The bytes that store count n, given the format byte before them. */
  function CountBytes(field: CountField, n: nat): (s: bytes)
    ensures |s| == Width(field)
  {
    match field case Inline(_) => [] case Following(w) => BE(w, n)
  }

  predicate Holds(field: CountField, n: nat) {
    match field case Inline(k) => n == k case Following(w) => n < Pow256(w)
  }

  function CountFrom(field: CountField, s: bytes): (n: nat)
    requires |s| == Width(field)
    ensures Holds(field, n)
  {
    match field case Inline(k) => k case Following(_) => UnBE(s)
  }

  lemma CountRoundTrip(field: CountField, n: nat, s: bytes)
    requires |s| == Width(field) && Holds(field, n)
    ensures CountFrom(field, s) == n <==> s == CountBytes(field, n)
  {
    if field.Following? {
      UnBEofBE(field.width, n);
      BEofUnBE(s);
    }
  }
}
