/** What a field or element holds after decoding, stated on the value the table's decoder reads from the same bytes. */
module FieldReference {
  import opened Bytes
  import opened Format
  import opened Wire
  import opened Values
  import opened Grammar
  import opened Fields
  import opened Reference

  /** 2^n for the four sizes. */
  function Modulus(n: nat): int
    requires BitSize(n)
  {
    if n == 8 then 0x100 else if n == 16 then 0x1_0000 else if n == 32 then 0x1_0000_0000 else 0x1_0000_0000_0000_0000
  }

  /** The whole number a value stands for. */
  function Whole(v: Value<bytes>): int {
    match v case Int(i) => i case Uint(u) => u case _ => 0
  }

  /** The formats a field of the kind takes, byte by byte of the table. */
  predicate FormatTaken(c: Codec, k: FieldKind, b: byte) {
    match k
    case FBool => b == 0xc2 || b == 0xc3
    case FInt(_) => b <= 0x7f || b >= 0xe0 || 0xcc <= b <= 0xd3
    case FUint(_) => b <= 0x7f || 0xcc <= b <= 0xcf || (c == Reflective && 0xd0 <= b <= 0xd3)
    case FString => 0xa0 <= b <= 0xbf || 0xd9 <= b <= 0xdb
    case FBytes => 0xa0 <= b <= 0xbf || 0xd9 <= b <= 0xdb || 0xc4 <= b <= 0xc6
    case FSlice(_) => false
  }

  /** x is v as a field of the kind: a number keeps its low bits, text and data keep their bytes. */
  predicate Converts(k: FieldKind, v: Value<bytes>, x: FieldVal)
    requires IsScalar(k)
  {
    match k
    case FBool => v.Bool? && x == VBool(v.b)
    case FInt(n) =>
      && (v.Int? || v.Uint?) && x.VInt?
      && -Modulus(n) <= 2 * x.i < Modulus(n) && (Whole(v) - x.i) % Modulus(n) == 0
    case FUint(n) =>
      (v.Int? || v.Uint?) && x.VUint? && 0 <= x.u < Modulus(n) && (Whole(v) - x.u) % Modulus(n) == 0
    case FString => v.Str? && x == VStr(v.str)
    case FBytes => (v.Str? && x == VBytes(v.str)) || (v.Bin? && x == VBytes(v.bin))
  }

  /** A multiple of 2^64 and a multiple of 2^n make a multiple of 2^n. */
  lemma AddMultiples(n: nat, a: int, b: int)
    requires BitSize(n) && a % 0x1_0000_0000_0000_0000 == 0 && b % Modulus(n) == 0
    ensures (a + b) % Modulus(n) == 0
  {
    var q := a / 0x1_0000_0000_0000_0000;
    if n == 8 { Multiple(a + b, 0x100, 0x100_0000_0000_0000 * q + b / 0x100); }
    else if n == 16 { Multiple(a + b, 0x1_0000, 0x1_0000_0000_0000 * q + b / 0x1_0000); }
    else if n == 32 { Multiple(a + b, 0x1_0000_0000, 0x1_0000_0000 * q + b / 0x1_0000_0000); }
  }

  lemma NumberConverts(k: FieldKind, v: Value<bytes>)
    requires IsScalar(k) && (k.FInt? || k.FUint?) && (v.Int? || v.Uint?)
    ensures Converts(k, v, FromValue(k, v))
  {
    hide WrapInt, WrapUint;
    var i, u := v.AsInt(), AsUint(v);
    Wrap64Means(Whole(v));
    assert (Whole(v) - i) % 0x1_0000_0000_0000_0000 == 0 && (Whole(v) - u) % 0x1_0000_0000_0000_0000 == 0;
    WrapMeans(k.bits, i, u);
    AddMultiples(k.bits, Whole(v) - i, i - WrapInt(k.bits, i));
    AddMultiples(k.bits, Whole(v) - u, u - WrapUint(k.bits, u));
  }

  /** The limits a field is read under: the cached decoder holds []byte fields to the binary limit throughout. */
  function ReadLimits(c: Codec, k: FieldKind, cfg: Config): Config {
    if c == Cached && k == FBytes
    then Config(cfg.maxBin, cfg.maxBin, cfg.maxArr, cfg.maxMap, cfg.maxExt, cfg.maxDepth)
    else cfg
  }

  /**
   One scalar, completely: a format the kind does not take is a mismatch behind the format byte; for any other
   the field fails where the table's decoder fails, and holds what that decoder reads, converted.
   */
  lemma ScalarConverts(c: Codec, k: FieldKind, data: bytes, pos: nat, cfg: Config, depth: int)
    requires pos < |data| && IsScalar(k)
    ensures !FormatTaken(c, k, data[pos]) ==>
            ScalarAt(c, k, data, pos + 1, data[pos], cfg) == Fail(TypeMismatch, pos + 1)
    ensures FormatTaken(c, k, data[pos]) ==>
      match Read(ValueMode, data, pos, ReadLimits(c, k, cfg), depth)
      case Fail(e, p) =>
        ScalarAt(c, k, data, pos + 1, data[pos], cfg)
          == Fail(if c == Cached && k == FBytes && e == TooLong(Kind.Str) then TooLong(Kind.Bin) else e, p)
      case Ok(v, p) =>
        var r := ScalarAt(c, k, data, pos + 1, data[pos], cfg);
        r.Ok? && r.pos == p && Converts(k, v, r.value)
  {
    hide LengthOf, ScalarWidth, ScalarValue, ParseCounted, Flatten, Body, Read, Converts, FromValue;
    var f, limits := data[pos], ReadLimits(c, k, cfg);
    TableAgrees(f);
    if FormatTaken(c, k, f) {
      Agrees(ValueMode, data, pos, limits, depth);
      Unfold(ValueMode, data, pos, false, limits, depth);
      LeafAnyDepth(ValueMode, data, pos + 1, f, limits, depth, 0);
      SoundBody(ValueMode, data, pos + 1, f, limits, 0);
      var r := ParseBody(ValueMode, data, pos + 1, f, limits, 0);
      if r.Ok? { LeafConverts(c, k, r.value); }
    }
  }

  lemma LeafConverts(c: Codec, k: FieldKind, w: Wire)
    requires IsScalar(k) && Legal(w) && FormatTaken(c, k, w.format)
    ensures Converts(k, Denote(w), FromValue(k, Denote(w)))
  {
    TableAgrees(w.format);
    if k.FInt? || k.FUint? { NumberConverts(k, Denote(w)); }
  }

  /** A nil element is the zero of its kind to the reflective decoder and a mismatch to the cached one. */
  lemma NilElement(c: Codec, k: FieldKind, data: bytes, pos: nat, cfg: Config)
    requires pos < |data| && data[pos] == 0xc0 && IsScalar(k)
    ensures c == Cached ==> ElemAt(c, k, data, pos, cfg) == Fail(TypeMismatch, pos + 1)
    ensures c == Reflective ==>
      ElemAt(c, k, data, pos, cfg) == Ok(match k {
        case FBool => VBool(false) case FInt(_) => VInt(0) case FUint(_) => VUint(0) case FString => VStr([])
        case FBytes => VBytes([]) case FSlice(_) => VList([])
      }, pos + 1)
  {
  }

  /** The count of an array or map field, completely. */
  lemma {:induction false} CountConverts(kind: Kind, data: bytes, pos: nat, cfg: Config)
    requires pos < |data| && (kind.Arr? || kind.Map?)
    ensures var b := data[pos];
      CountAt(kind, data, pos + 1, b, cfg)
        == if ScalarWidth(b) >= 0 || b == 0xc1 || LengthOf(b).kind != kind then Fail(TypeMismatch, pos + 1)
           else
             var l := LengthOf(b);
             var q := pos + 1 + l.width;
             if q > |data| then Fail(UnexpectedEOF, pos + 1)
             else
               var n := if l.width == 0 then l.inline else Number(data[pos + 1..q]);
               if n > MaxLen(kind, cfg) then Fail(TooLong(kind), q)
               else if q + (if kind.Map? then 2 * n else n) > |data| then Fail(UnexpectedEOF, q)
               else Ok(n, q)
  {
    var b := data[pos];
    TableAgrees(b);
    if ScalarWidth(b) < 0 && b != 0xc1 && pos + 1 + LengthOf(b).width <= |data| {
      NumberIsUnBE(data[pos + 1..pos + 1 + LengthOf(b).width]);
    }
  }
}
