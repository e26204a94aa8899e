/** Struct fields and slice elements: what the cached and the reflective decoder make of one value. */
module Fields {
  import opened Bytes
  import opened Format
  import opened Wire
  import opened Values
  import opened Grammar
  import opened Decoding

  /** `StructDecoder` (struct_decoder.go) or `DecodeStruct` (decode_struct.go). */
  datatype Codec = Cached | Reflective

  /** Field types; an int or uint has 8, 16, 32 or 64 bits. */
  datatype FieldKind = FBool | FInt(bits: nat) | FUint(bits: nat) | FString | FBytes | FSlice(elem: FieldKind)

  datatype FieldVal =
    | VBool(b: bool)
    | VInt(i: int64)
    | VUint(u: uint64)
    | VStr(str: bytes)
    | VBytes(bin: bytes)
    | VList(items: seq<FieldVal>)

  function Zero(k: FieldKind): FieldVal {
    match k
    case FBool => VBool(false)
    case FInt(_) => VInt(0)
    case FUint(_) => VUint(0)
    case FString => VStr([])
    case FBytes => VBytes([])
    case FSlice(_) => VList([])
  }

  predicate BitSize(n: nat) { n == 8 || n == 16 || n == 32 || n == 64 }

  /** A kind that is not a slice. */
  predicate IsScalar(k: FieldKind) {
    match k
    case FInt(n) => BitSize(n)
    case FUint(n) => BitSize(n)
    case FSlice(_) => false
    case _ => true
  }

  /** The kinds modelled: scalars, []int64 and []string. */
  predicate Flat(k: FieldKind) {
    IsScalar(k) || (k.FSlice? && (k.elem == FInt(64) || k.elem == FString))
  }

  /** The conversion int8(v), int16(v), int32(v) or int64(v). */
  function WrapInt(n: nat, i: int64): int64
    requires BitSize(n)
  {
    if n == 8 then (i + 0x80) % 0x100 - 0x80
    else if n == 16 then (i + 0x8000) % 0x1_0000 - 0x8000
    else if n == 32 then (i + 0x8000_0000) % 0x1_0000_0000 - 0x8000_0000
    else i
  }

  function WrapUint(n: nat, u: uint64): uint64
    requires BitSize(n)
  {
    if n == 8 then u % 0x100 else if n == 16 then u % 0x1_0000 else if n == 32 then u % 0x1_0000_0000 else u
  }

  /** 2^(n-1) for the four sizes. */
  function HalfRange(n: nat): int
    requires BitSize(n)
  {
    if n == 8 then 0x80 else if n == 16 then 0x8000 else if n == 32 then 0x8000_0000 else 0x8000_0000_0000_0000
  }

  /** Go's narrowing keeps the low n bits: the result is in range and differs by a multiple of 2^n. */
  lemma WrapMeans(n: nat, i: int64, u: uint64)
    requires BitSize(n)
    ensures -HalfRange(n) <= WrapInt(n, i) < HalfRange(n) && (i - WrapInt(n, i)) % (2 * HalfRange(n)) == 0
    ensures 0 <= WrapUint(n, u) < 2 * HalfRange(n) && (u - WrapUint(n, u)) % (2 * HalfRange(n)) == 0
  {
    hide WrapInt, WrapUint;
    WrapIsResidue(n, i, u);
    if n < 64 { Narrowed(i, u, HalfRange(n)); }
  }

  lemma WrapIsResidue(n: nat, i: int64, u: uint64)
    requires BitSize(n)
    ensures n < 64 ==> WrapInt(n, i) == (i + HalfRange(n)) % (2 * HalfRange(n)) - HalfRange(n)
    ensures n < 64 ==> WrapUint(n, u) == u % (2 * HalfRange(n))
    ensures n == 64 ==> WrapInt(n, i) == i && WrapUint(n, u) == u
  {
  }

  lemma {:induction false} Narrowed(i: int, u: int, half: int)
    requires half == 0x80 || half == 0x8000 || half == 0x8000_0000
    ensures var r := (i + half) % (2 * half) - half;
      -half <= r < half && (i - r) % (2 * half) == 0
    ensures 0 <= u % (2 * half) < 2 * half && (u - u % (2 * half)) % (2 * half) == 0
  {
    Residue(i + half, 2 * half);
    Residue(u, 2 * half);
  }

  /** A number less its remainder is a multiple. */
  lemma Residue(x: int, m: int)
    requires m == 0x100 || m == 0x1_0000 || m == 0x1_0000_0000
    ensures 0 <= x % m < m && (x - x % m) % m == 0
  {
    if m == 0x100 { Multiple(x - x % 0x100, 0x100, x / 0x100); }
    else if m == 0x1_0000 { Multiple(x - x % 0x1_0000, 0x1_0000, x / 0x1_0000); }
    else { Multiple(x - x % 0x1_0000_0000, 0x1_0000_0000, x / 0x1_0000_0000); }
  }

  lemma Multiple(x: int, m: int, q: int)
    requires m == 0x100 || m == 0x1_0000 || m == 0x1_0000_0000
    requires x == m * q
    ensures x % m == 0
  {
    if m == 0x100 { assert x == 0x100 * q; }
    else if m == 0x1_0000 { assert x == 0x1_0000 * q; }
    else { assert x == 0x1_0000_0000 * q; }
  }

  /** What is in range is kept. */
  lemma WrapKeeps(n: nat, i: int64, u: uint64)
    requires BitSize(n)
    ensures -HalfRange(n) <= i < HalfRange(n) ==> WrapInt(n, i) == i
    ensures u < 2 * HalfRange(n) ==> WrapUint(n, u) == u
  {
  }

  predicate IsIntFormat(f: byte) { f <= 0x7f || f >= 0xe0 || UINT8 <= f <= INT64 }

  predicate IsUintFormat(f: byte) { f <= 0x7f || UINT8 <= f <= UINT64 }

  predicate IsBin(f: byte) { BIN8 <= f <= BIN32 }

  /** The formats a kind takes; the reflective decoder also reads signed formats into unsigned fields. */
  predicate Accepts(c: Codec, k: FieldKind, f: byte) {
    match k
    case FBool => f == TRUE || f == FALSE
    case FInt(_) => IsIntFormat(f)
    case FUint(_) => IsUintFormat(f) || (c.Reflective? && INT8 <= f <= INT64)
    case FString => IsStr(f)
    case FBytes => IsStr(f) || IsBin(f)
    case FSlice(_) => false
  }

  /** `AsUint`. */
  function AsUint(v: Value<bytes>): uint64 {
    if v.Int? then v.i % 0x1_0000_0000_0000_0000 else if v.Uint? then v.u else 0
  }

  function FromValue(k: FieldKind, v: Value<bytes>): FieldVal
    requires IsScalar(k)
  {
    match k
    case FBool => VBool(v == Value.Bool(true))
    case FInt(n) => VInt(WrapInt(n, v.AsInt()))
    case FUint(n) => VUint(WrapUint(n, AsUint(v)))
    case FString => VStr(if v.Str? then v.str else [])
    case FBytes => VBytes(if v.Str? then v.str else if v.Bin? then v.bin else [])
  }

  /** The cached decoder holds []byte fields to the binary limit even when the wire has a string. */
  function LimitsFor(c: Codec, k: FieldKind, cfg: Config): Config {
    if c.Cached? && k.FBytes? then cfg.(maxStr := cfg.maxBin) else cfg
  }

  function ErrorFor(c: Codec, k: FieldKind, e: Error): Error {
    if c.Cached? && k.FBytes? && e == TooLong(Kind.Str) then TooLong(Kind.Bin) else e
  }

  /** One scalar, its format byte read. */
  ghost function ScalarAt(c: Codec, k: FieldKind, data: bytes, pos: nat, f: byte, cfg: Config): (r: Res<FieldVal>)
    requires pos <= |data| && IsScalar(k)
    ensures pos <= r.pos <= |data|
  {
    if !Accepts(c, k, f) then Fail(TypeMismatch, pos)
    else match ParseBody(ValueMode, data, pos, f, LimitsFor(c, k, cfg), 0)
      case Fail(e, p) => Fail(ErrorFor(c, k, e), p)
      case Ok(w, p) => SoundBody(ValueMode, data, pos, f, LimitsFor(c, k, cfg), 0); Ok(FromValue(k, Denote(w)), p)
  }

  /** One slice element: a nil stands for zero only on the reflective side. */
  ghost function ElemAt(c: Codec, k: FieldKind, data: bytes, pos: nat, cfg: Config): (r: Res<FieldVal>)
    requires pos <= |data| && IsScalar(k)
    ensures pos <= r.pos <= |data|
    ensures r.Ok? ==> pos < r.pos
  {
    if pos == |data| then Fail(UnexpectedEOF, pos)
    else if data[pos] == NIL && c.Reflective? then Ok(Zero(k), pos + 1)
    else ScalarAt(c, k, data, pos + 1, data[pos], cfg)
  }

  /** n more elements behind those in xs. */
  ghost function ElemsAt(c: Codec, k: FieldKind, data: bytes, pos: nat, n: nat, cfg: Config,
                         xs: seq<FieldVal>): (r: Res<seq<FieldVal>>)
    requires pos <= |data| && IsScalar(k)
    ensures pos <= r.pos <= |data|
    decreases n
  {
    if n == 0 then Ok(xs, pos)
    else match ElemAt(c, k, data, pos, cfg)
      case Fail(e, p) => Fail(e, p)
      case Ok(x, p) => ElemsAt(c, k, data, p, n - 1, cfg, xs + [x])
  }

  /** The count of an array or a map, within its limit and with the bytes it asks for at hand. */
  ghost function CountAt(kind: Kind, data: bytes, pos: nat, f: byte, cfg: Config): (r: Res<nat>)
    requires pos <= |data|
    ensures pos <= r.pos <= |data|
  {
    if !ShapeOf(f).Counted? || ShapeOf(f).kind != kind then Fail(TypeMismatch, pos)
    else
      var p := pos + Width(ShapeOf(f).field);
      if p > |data| then Fail(UnexpectedEOF, pos)
      else
        var n := CountFrom(ShapeOf(f).field, data[pos..p]);
        if n > cfg.Limit(kind) then Fail(TooLong(kind), p)
        else if p + Needed(kind, n) > |data| then Fail(UnexpectedEOF, p)
        else Ok(n, p)
  }

  /** A slice, its format byte read; only the reflective decoder counts it as a container. */
  ghost function SliceAt(c: Codec, k: FieldKind, data: bytes, pos: nat, f: byte, cfg: Config,
                         depth: int): (r: Res<FieldVal>)
    requires pos <= |data| && IsScalar(k)
    ensures pos <= r.pos <= |data|
  {
    match CountAt(Arr, data, pos, f, cfg)
    case Fail(e, p) => Fail(e, p)
    case Ok(n, p) =>
      if c.Reflective? && depth + 1 > cfg.maxDepth then Fail(MaxDepthExceeded, p)
      else match ElemsAt(c, k, data, p, n, cfg, [])
        case Fail(e, q) => Fail(e, q)
        case Ok(xs, q) => Ok(VList(xs), q)
  }

  /** A field value, its format byte read and not nil. */
  ghost function ValueAt(c: Codec, k: FieldKind, data: bytes, pos: nat, f: byte, cfg: Config,
                         depth: int): (r: Res<FieldVal>)
    requires pos <= |data| && Flat(k)
    ensures pos <= r.pos <= |data|
  {
    if k.FSlice? then SliceAt(c, k.elem, data, pos, f, cfg, depth) else ScalarAt(c, k, data, pos, f, cfg)
  }

  /** Formats that open no container are read alike at every depth. */
  lemma LeafAnyDepth(m: Mode, data: bytes, pos: nat, f: byte, cfg: Config, depth: int, depth': int)
    requires pos <= |data| && !(ShapeOf(f).Counted? && (ShapeOf(f).kind.Arr? || ShapeOf(f).kind.Map?))
    ensures ParseBody(m, data, pos, f, cfg, depth) == ParseBody(m, data, pos, f, cfg, depth')
  {
  }

  lemma {:induction false} ScalarBlob(c: Codec, k: FieldKind, data: bytes, pos: nat, f: byte, cfg: Config)
    requires pos <= |data| && (k.FString? || k.FBytes?) && Accepts(c, k, f)
    ensures var bin := ShapeOf(f).kind.Bin? || (c.Cached? && k.FBytes?);
      ScalarAt(c, k, data, pos, f, cfg)
        == match BlobAt(if bin then cfg.maxBin else cfg.maxStr, TooLong(if bin then Kind.Bin else Kind.Str),
                        data, pos, ShapeOf(f).field) {
             case Fail(e, p) => Fail(e, p)
             case Ok(s, p) => Ok(if k.FString? then VStr(s) else VBytes(s), p)
           }
  {
    ParseBlob(data, pos, f, LimitsFor(c, k, cfg), 0);
    SoundBody(ValueMode, data, pos, f, LimitsFor(c, k, cfg), 0);
  }

  /** Integers behind their format byte, spelled out. */
  lemma {:induction false} ScalarInt(c: Codec, data: bytes, pos: nat, f: byte, cfg: Config)
    requires pos <= |data| && UINT8 <= f <= INT64
    ensures var w := if f <= UINT64 then Pow2(f - UINT8) else Pow2(f - INT8);
      ScalarAt(c, FInt(64), data, pos, f, cfg)
        == if pos + w > |data| then Fail(UnexpectedEOF, pos)
           else
             var n := UnBE(data[pos..pos + w]);
             Ok(VInt(Wrap64(if f <= UINT64 then n else Signed(w, n))), pos + w)
  {
    hide BE, UnBE, Flatten, Body, Fits, FitsAll;
    PowValues();
    SoundBody(ValueMode, data, pos, f, cfg, 0);
  }

  // ---- the decoding routines ----

  /** The outcome and the cursor are those of the specification. */
  ghost predicate Gave<T>(spec: Res<T>, r: Result<T>, pos: nat) {
    match spec
    case Ok(v, p) => r == Success(v) && pos == p
    case Fail(e, p) => r == Failure(e) && pos == p
  }

  /** `decodeInt`, in the three places it is written out, before any narrowing. */
  method DecodeInt(d: Decoder, f: byte, ghost c: Codec) returns (r: Result<FieldVal>)
    requires d.Valid()
    modifies d`pos
    ensures d.Valid()
    ensures Gave(ScalarAt(c, FInt(64), d.data, old(d.pos), f, d.cfg), r, d.pos)
    ensures r.Success? ==> r.value.VInt?
    ensures r.Failure? ==> r.error != MaxDepthExceeded
  {
    hide IsPositiveFixint;
    PowValues();
    if IsPositiveFixint(f) { return Success(VInt(f)); }
    if IsNegativeFixint(f) { return Success(VInt(f - 0x100)); }
    if !(UINT8 <= f <= INT64) { return Failure(TypeMismatch); }
    r := DecodeWideInt(d, f, c);
  }

  method DecodeWideInt(d: Decoder, f: byte, ghost c: Codec) returns (r: Result<FieldVal>)
    requires d.Valid() && UINT8 <= f <= INT64
    modifies d`pos
    ensures d.Valid()
    ensures Gave(ScalarAt(c, FInt(64), d.data, old(d.pos), f, d.cfg), r, d.pos)
    ensures r.Success? ==> r.value.VInt?
    ensures r.Failure? ==> r.error != MaxDepthExceeded
  {
    hide ScalarAt;
    ScalarInt(c, d.data, d.pos, f, d.cfg);
    PowValues();
    var v: nat;
    if f == UINT8 { v :- d.ReadUint(1); return Success(VInt(v)); }
    if f == UINT16 { v :- d.ReadUint(2); return Success(VInt(v)); }
    if f == UINT32 { v :- d.ReadUint(4); return Success(VInt(v)); }
    if f == UINT64 { v :- d.ReadUint(8); return Success(VInt(Wrap64(v))); }
    r := DecodeSigned(d, f, c);
  }

  method DecodeSigned(d: Decoder, f: byte, ghost c: Codec) returns (r: Result<FieldVal>)
    requires d.Valid() && INT8 <= f <= INT64
    modifies d`pos
    ensures d.Valid()
    ensures Gave(ScalarAt(c, FInt(64), d.data, old(d.pos), f, d.cfg), r, d.pos)
    ensures r.Success? ==> r.value.VInt?
    ensures r.Failure? ==> r.error != MaxDepthExceeded
  {
    hide ScalarAt;
    ScalarInt(c, d.data, d.pos, f, d.cfg);
    PowValues();
    var v: nat;
    if f == INT8 { v :- d.ReadUint(1); return Success(VInt(Signed(1, v))); }
    if f == INT16 { v :- d.ReadUint(2); return Success(VInt(Signed(2, v))); }
    if f == INT32 { v :- d.ReadUint(4); return Success(VInt(Signed(4, v))); }
    v :- d.ReadUint(8);
    return Success(VInt(Signed(8, v)));
  }

  /** `decodeUint` (cached); `decodeValueUint` (reflective) takes the signed formats as well. */
  method DecodeUint(d: Decoder, f: byte, c: Codec) returns (r: Result<FieldVal>)
    requires d.Valid()
    modifies d`pos
    ensures d.Valid()
    ensures Gave(ScalarAt(c, FUint(64), d.data, old(d.pos), f, d.cfg), r, d.pos)
    ensures r.Success? ==> r.value.VUint?
    ensures r.Failure? ==> r.error != MaxDepthExceeded
  {
    hide IsPositiveFixint, UnBE;
    PowValues();
    var v: nat;
    if IsPositiveFixint(f) { return Success(VUint(f)); }
    if f == UINT8 { v :- d.ReadUint(1); return Success(VUint(v)); }
    if f == UINT16 { v :- d.ReadUint(2); return Success(VUint(v)); }
    if f == UINT32 { v :- d.ReadUint(4); return Success(VUint(v)); }
    if f == UINT64 { v :- d.ReadUint(8); return Success(VUint(v)); }
    if c.Cached? { return Failure(TypeMismatch); }
    r := DecodeSignedUint(d, f);
  }

  method DecodeSignedUint(d: Decoder, f: byte) returns (r: Result<FieldVal>)
    requires d.Valid() && !IsUintFormat(f)
    modifies d`pos
    ensures d.Valid()
    ensures Gave(ScalarAt(Reflective, FUint(64), d.data, old(d.pos), f, d.cfg), r, d.pos)
    ensures r.Success? ==> r.value.VUint?
    ensures r.Failure? ==> r.error != MaxDepthExceeded
  {
    hide BE, UnBE;
    PowValues();
    var v: nat;
    match f {
      case 0xd0 => v :- d.ReadUint(1); return Success(VUint(Unsigned(8, Signed(1, v))));
      case 0xd1 => v :- d.ReadUint(2); return Success(VUint(Unsigned(8, Signed(2, v))));
      case 0xd2 => v :- d.ReadUint(4); return Success(VUint(Unsigned(8, Signed(4, v))));
      case 0xd3 => v :- d.ReadUint(8); return Success(VUint(Unsigned(8, Signed(8, v))));
      case _ => return Failure(TypeMismatch);
    }
  }

  /** `decodeString` and `decodeValueString`. */
  method DecodeString(d: Decoder, f: byte, ghost c: Codec) returns (r: Result<FieldVal>)
    requires d.Valid()
    modifies d`pos
    ensures d.Valid()
    ensures Gave(ScalarAt(c, FString, d.data, old(d.pos), f, d.cfg), r, d.pos)
    ensures r.Failure? ==> r.error != MaxDepthExceeded
  {
    hide IsFixstr, Flatten, FlattenAll, Body, ParseBody, Denote;
    if !IsFixstr(f) && !(STR8 <= f <= STR32) { return Failure(TypeMismatch); }
    ScalarBlob(c, FString, d.data, d.pos, f, d.cfg);
    var n :- d.ParseStringLen(f);
    var s :- d.TakeString(n);
    return Success(VStr(View(d.data, s)));
  }

  /** `decodeBytes` of the cached decoder: one limit for both families of formats. */
  method DecodeBytesCached(d: Decoder, f: byte) returns (r: Result<FieldVal>)
    requires d.Valid()
    modifies d`pos
    ensures d.Valid()
    ensures Gave(ScalarAt(Cached, FBytes, d.data, old(d.pos), f, d.cfg), r, d.pos)
    ensures r.Failure? ==> r.error != MaxDepthExceeded
  {
    hide IsFixstr;
    var n: nat;
    if Accepts(Cached, FBytes, f) { ScalarBlob(Cached, FBytes, d.data, d.pos, f, d.cfg); }
    if IsFixstr(f) || STR8 <= f <= STR32 { n :- d.ParseStringLen(f); }
    else if BIN8 <= f <= BIN32 { n :- d.ParseBinaryLen(f); }
    else { return Failure(TypeMismatch); }
    var s :- d.TakeBinary(n);
    return Success(VBytes(View(d.data, s)));
  }

  /** `decodeValueBytes` of the reflective decoder: each family under its own limit. */
  method DecodeBytesReflective(d: Decoder, f: byte) returns (r: Result<FieldVal>)
    requires d.Valid()
    modifies d`pos
    ensures d.Valid()
    ensures Gave(ScalarAt(Reflective, FBytes, d.data, old(d.pos), f, d.cfg), r, d.pos)
    ensures r.Failure? ==> r.error != MaxDepthExceeded
  {
    hide IsFixstr, BE, UnBE, ParseCounted, ParseAll;
    var n: nat;
    var s: Slice;
    if Accepts(Reflective, FBytes, f) { ScalarBlob(Reflective, FBytes, d.data, d.pos, f, d.cfg); }
    if IsFixstr(f) || STR8 <= f <= STR32 {
      n :- d.ParseStringLen(f);
      s :- d.TakeString(n);
    } else if BIN8 <= f <= BIN32 {
      n :- d.ParseBinaryLen(f);
      s :- d.TakeBinary(n);
    } else {
      return Failure(TypeMismatch);
    }
    return Success(VBytes(View(d.data, s)));
  }

  function Narrow(k: FieldKind, v: FieldVal): FieldVal
    requires IsScalar(k)
  {
    match k
    case FInt(n) => if v.VInt? then VInt(WrapInt(n, v.i)) else v
    case FUint(n) => if v.VUint? then VUint(WrapUint(n, v.u)) else v
    case _ => v
  }

  /** The scalar cases of `decodeField` (cached) and `decodeIntoValue` (reflective). */
  method DecodeScalar(d: Decoder, k: FieldKind, f: byte, c: Codec) returns (r: Result<FieldVal>)
    requires d.Valid() && IsScalar(k)
    modifies d`pos
    ensures d.Valid()
    ensures Gave(ScalarAt(c, k, d.data, old(d.pos), f, d.cfg), r, d.pos)
    ensures r.Failure? ==> r.error != MaxDepthExceeded
  {
    match k
    case FBool =>
      if f == TRUE { return Success(VBool(true)); }
      if f == FALSE { return Success(VBool(false)); }
      return Failure(TypeMismatch);
    case FInt(n) => r := DecodeInt(d, f, c); r := r.Map(v => Narrow(k, v));
    case FUint(n) => r := DecodeUint(d, f, c); r := r.Map(v => Narrow(k, v));
    case FString => r := DecodeString(d, f, c);
    case FBytes => if c.Cached? { r := DecodeBytesCached(d, f); } else { r := DecodeBytesReflective(d, f); }
  }

  /** `parseArrayLen` or `parseMapLen`, then `validateArrayLen` or `validateMapLen`. */
  method ReadCount(d: Decoder, kind: Kind, f: byte) returns (r: Result<nat>)
    requires d.Valid() && (kind.Arr? || kind.Map?)
    modifies d`pos
    ensures d.Valid() && Gave(CountAt(kind, d.data, old(d.pos), f, d.cfg), r, d.pos)
    ensures r.Failure? ==> r.error != MaxDepthExceeded
  {
    var n: nat;
    if kind.Arr? { n :- d.ParseArrayLen(f); } else { n :- d.ParseMapLen(f); }
    var _ :- d.ValidateLen(kind, n);
    return Success(n);
  }
}
