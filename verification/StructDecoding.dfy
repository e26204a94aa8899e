/**
 Decoding a map into a struct: the cached `StructDecoder` (struct_decoder.go) and the reflective
 `DecodeStruct` (decode_struct.go). A struct is its list of fields and one value per field.
 */
module StructDecoding {
  import opened Bytes
  import opened Format
  import opened Wire
  import opened Values
  import opened Grammar
  import opened Encoding
  import opened Decoding
  import opened AnyCodec
  import opened Fields

  datatype Field = Field(name: bytes, kind: FieldKind, omitempty: bool)

  /** Where a struct decoder ends; fields assigned before an error stay assigned. */
  datatype SRes = SOk(dst: seq<FieldVal>, pos: nat) | SFail(err: Error, pos: nat, dst: seq<FieldVal>)

  predicate Shaped(fields: seq<Field>, dst: seq<FieldVal>) {
    |dst| == |fields| && forall i :: 0 <= i < |fields| ==> Flat(fields[i].kind)
  }

  /** The first field with the name, or -1. */
  function Find(fields: seq<Field>, name: bytes): (j: int)
    ensures -1 <= j < |fields|
    ensures j >= 0 ==> fields[j].name == name && forall i :: 0 <= i < j ==> fields[i].name != name
    ensures j < 0 ==> forall i :: 0 <= i < |fields| ==> fields[i].name != name
  {
    if fields == [] then -1
    else if fields[0].name == name then 0
    else var j := Find(fields[1..], name); if j < 0 then -1 else j + 1
  }

  /** One field: nil leaves it alone (cached) or zeroes it (reflective). */
  ghost function FieldAt(c: Codec, k: FieldKind, cur: FieldVal, data: bytes, pos: nat, cfg: Config,
                         depth: int): (r: Res<FieldVal>)
    requires pos <= |data| && Flat(k)
    ensures pos <= r.pos <= |data|
  {
    if pos == |data| then Fail(UnexpectedEOF, pos)
    else if data[pos] == NIL then Ok(if c.Cached? then cur else Zero(k), pos + 1)
    else ValueAt(c, k, data, pos + 1, data[pos], cfg, depth)
  }

  ghost function SkipAt(dst: seq<FieldVal>, data: bytes, pos: nat, cfg: Config, depth: int): (r: SRes)
    requires pos <= |data|
    ensures r.pos <= |data| && |r.dst| == |dst|
  {
    match Parse(ValueMode, data, pos, cfg, depth)
    case Fail(e, p) => SFail(e, p, dst)
    case Ok(_, p) => SOk(dst, p)
  }

  /** A pair whose key has been read. */
  ghost function NamedAt(c: Codec, fields: seq<Field>, dst: seq<FieldVal>, key: bytes, data: bytes, pos: nat,
                         cfg: Config, depth: int): (r: SRes)
    requires pos <= |data| && Shaped(fields, dst)
    ensures r.pos <= |data| && |r.dst| == |dst|
  {
    var j := Find(fields, key);
    if j < 0 then SkipAt(dst, data, pos, cfg, depth)
    else match FieldAt(c, fields[j].kind, dst[j], data, pos, cfg, depth)
      case Fail(e, p) => SFail(e, p, dst)
      case Ok(v, p) => SOk(dst[j := v], p)
  }

  /** One key-value pair. A key that is no string ends the cached decoder; the reflective one skips the pair. */
  ghost function PairAt(c: Codec, fields: seq<Field>, dst: seq<FieldVal>, data: bytes, pos: nat, cfg: Config,
                        depth: int): (r: SRes)
    requires pos <= |data| && Shaped(fields, dst)
    ensures r.pos <= |data| && |r.dst| == |dst|
  {
    if c.Reflective? && pos < |data| && !IsStr(data[pos]) then
      match ParseBody(ValueMode, data, pos + 1, data[pos], cfg, depth)
      case Fail(e, p) => SFail(e, p, dst)
      case Ok(_, q) => SkipAt(dst, data, q, cfg, depth)
    else
      match ParseItem(TypedMode, data, pos, true, cfg, depth)
      case Fail(e, p) => SFail(e, p, dst)
      case Ok(k, q) => NamedAt(c, fields, dst, KeyBytes(KeyOf(k)), data, q, cfg, depth)
  }

  ghost function PairsAt(c: Codec, fields: seq<Field>, dst: seq<FieldVal>, data: bytes, pos: nat, n: nat,
                         cfg: Config, depth: int): (r: SRes)
    requires pos <= |data| && Shaped(fields, dst)
    ensures r.pos <= |data| && |r.dst| == |dst|
    decreases n
  {
    if n == 0 then SOk(dst, pos)
    else match PairAt(c, fields, dst, data, pos, cfg, depth)
      case SFail(e, p, s) => SFail(e, p, s)
      case SOk(s, p) => PairsAt(c, fields, s, data, p, n - 1, cfg, depth)
  }

  /** The depth at which a struct decoder reads the values of its map. */
  function Inner(c: Codec, depth: int): int {
    if c.Reflective? then depth + 1 else depth
  }

  /** A whole struct, from its format byte on. */
  ghost function StructAt(c: Codec, fields: seq<Field>, dst: seq<FieldVal>, data: bytes, pos: nat, cfg: Config,
                          depth: int): (r: SRes)
    requires pos <= |data| && Shaped(fields, dst)
    ensures r.pos <= |data| && |r.dst| == |dst|
  {
    if pos == |data| then SFail(UnexpectedEOF, pos, dst)
    else if data[pos] == NIL then SOk(dst, pos + 1)
    else match CountAt(Kind.Map, data, pos + 1, data[pos], cfg)
      case Fail(e, p) => SFail(e, p, dst)
      case Ok(n, p) =>
        if c.Reflective? && depth + 1 > cfg.maxDepth then SFail(MaxDepthExceeded, p, dst)
        else PairsAt(c, fields, dst, data, p, n, cfg, Inner(c, depth))
  }

  // ---- the decoders ----

  ghost predicate Ended(spec: SRes, r: Result<()>, pos: nat, dst: seq<FieldVal>) {
    match spec
    case SOk(s, p) => r == Success(()) && pos == p && dst == s
    case SFail(e, p, s) => r == Failure(e) && pos == p && dst == s
  }

  /** The linear scan over the registered fields. */
  method FindField(fields: seq<Field>, key: bytes) returns (j: int)
    ensures j == Find(fields, key)
  {
    for i := 0 to |fields|
      invariant forall k :: 0 <= k < i ==> fields[k].name != key
    {
      if fields[i].name == key { return i; }
    }
    return -1;
  }

  /** `decodeStringSlice` and `decodeInt64Slice` of the cached decoder. */
  method CachedSlice(d: Decoder, k: FieldKind, f: byte) returns (r: Result<FieldVal>)
    requires d.Valid() && IsScalar(k)
    modifies d`pos
    ensures d.Valid()
    ensures Gave(SliceAt(Cached, k, d.data, old(d.pos), f, d.cfg, d.depth), r, d.pos)
    ensures r.Failure? ==> r.error != MaxDepthExceeded
  {
    var n :- ReadCount(d, Arr, f);
    var items := CachedElems(d, k, n);
    return items.Map(x => VList(x));
  }

  method CachedElem(d: Decoder, k: FieldKind) returns (r: Result<FieldVal>)
    requires d.Valid() && IsScalar(k)
    modifies d`pos
    ensures d.Valid() && Gave(ElemAt(Cached, k, d.data, old(d.pos), d.cfg), r, d.pos)
    ensures r.Failure? ==> r.error != MaxDepthExceeded
  {
    var f :- d.ReadByte();
    r := DecodeScalar(d, k, f, Cached);
  }

  method CachedElems(d: Decoder, k: FieldKind, n: nat) returns (r: Result<seq<FieldVal>>)
    requires d.Valid() && IsScalar(k)
    modifies d`pos
    ensures d.Valid()
    ensures Gave(ElemsAt(Cached, k, d.data, old(d.pos), n, d.cfg, []), r, d.pos)
    ensures r.Failure? ==> r.error != MaxDepthExceeded
  {
    var xs: seq<FieldVal> := [];
    for i := 0 to n
      invariant d.Valid()
      invariant ElemsAt(Cached, k, d.data, old(d.pos), n, d.cfg, [])
                == ElemsAt(Cached, k, d.data, d.pos, n - i, d.cfg, xs)
    {
      var x :- CachedElem(d, k);
      xs := xs + [x];
    }
    return Success(xs);
  }

  /** `decodeField`. */
  method CachedField(d: Decoder, k: FieldKind, dst: array<FieldVal>, j: nat) returns (r: Result<()>)
    requires d.Valid() && Flat(k) && j < dst.Length
    modifies d`pos, dst
    ensures d.Valid()
    ensures match FieldAt(Cached, k, old(dst[j]), d.data, old(d.pos), d.cfg, d.depth)
            case Fail(e, p) => r == Failure(e) && d.pos == p && dst[..] == old(dst[..])
            case Ok(v, p) => r == Success(()) && d.pos == p && dst[..] == old(dst[..])[j := v]
    ensures r.Failure? ==> r.error != MaxDepthExceeded
  {
    var f :- d.ReadByte();
    if f == NIL { assert dst[..] == old(dst[..])[j := old(dst[j])]; return Success(()); }
    var v: FieldVal;
    if k.FSlice? { v :- CachedSlice(d, k.elem, f); } else { v :- DecodeScalar(d, k, f, Cached); }
    dst[j] := v;
    return Success(());
  }

  /** One round of the loop of `decodeInto`. */
  method CachedPair(d: Decoder, fields: seq<Field>, dst: array<FieldVal>) returns (r: Result<()>)
    requires d.Valid() && Shaped(fields, dst[..])
    modifies d`pos, d`depth, d`slots, dst
    ensures d.Valid()
    ensures Ended(PairAt(Cached, fields, old(dst[..]), d.data, old(d.pos), d.cfg, old(d.depth)), r, d.pos, dst[..])
    ensures DepthKept(old(d.depth), r, d.depth)
  {
    SoundItem(TypedMode, d.data, d.pos, true, d.cfg, d.depth);
    var key :- ReadStringBytes(d);
    var j := FindField(fields, key);
    if j < 0 {
      var _ :- d.Decode();
      return Success(());
    }
    r := CachedField(d, fields[j].kind, dst, j);
  }

  /** `StructDecoder.decodeInto`. */
  method DecodeInto(d: Decoder, fields: seq<Field>, dst: array<FieldVal>) returns (r: Result<()>)
    requires d.Valid() && Shaped(fields, dst[..])
    modifies d`pos, d`depth, d`slots, dst
    ensures d.Valid()
    ensures Ended(StructAt(Cached, fields, old(dst[..]), d.data, old(d.pos), d.cfg, old(d.depth)), r, d.pos, dst[..])
    ensures DepthKept(old(d.depth), r, d.depth)
  {
    hide CountAt, PairsAt;
    var format :- d.ReadByte();
    if format == NIL { return Success(()); }
    var n :- ReadCount(d, Kind.Map, format);
    r := CachedPairs(d, fields, dst, n);
  }

  /** The loop of `decodeInto`. */
  method CachedPairs(d: Decoder, fields: seq<Field>, dst: array<FieldVal>, n: nat) returns (r: Result<()>)
    requires d.Valid() && Shaped(fields, dst[..])
    modifies d`pos, d`depth, d`slots, dst
    ensures d.Valid()
    ensures Ended(PairsAt(Cached, fields, old(dst[..]), d.data, old(d.pos), n, d.cfg, old(d.depth)), r, d.pos, dst[..])
    ensures DepthKept(old(d.depth), r, d.depth)
  {
    hide PairAt;
    ghost var start, init := d.pos, dst[..];
    for i := 0 to n
      invariant d.Valid() && d.depth == old(d.depth) && Shaped(fields, dst[..])
      invariant PairsAt(Cached, fields, init, d.data, start, n, d.cfg, d.depth)
             == PairsAt(Cached, fields, dst[..], d.data, d.pos, n - i, d.cfg, d.depth)
    {
      var _ :- CachedPair(d, fields, dst);
    }
    return Success(());
  }

  // ---- decode_struct.go ----

  /** `decodeIntoSlice`. */
  method ReflectiveSlice(d: Decoder, k: FieldKind, f: byte) returns (r: Result<FieldVal>)
    requires d.Valid() && IsScalar(k)
    modifies d`pos, d`depth
    ensures d.Valid()
    ensures Gave(SliceAt(Reflective, k, d.data, old(d.pos), f, d.cfg, old(d.depth)), r, d.pos)
    ensures DepthKept(old(d.depth), r, d.depth)
  {
    var n :- ReadCount(d, Arr, f);
    var _ :- d.EnterContainer();
    var items := ReflectiveElems(d, k, n);
    d.LeaveContainer();  // the deferred call
    return items.Map(x => VList(x));
  }

  method ReflectiveElems(d: Decoder, k: FieldKind, n: nat) returns (r: Result<seq<FieldVal>>)
    requires d.Valid() && IsScalar(k)
    modifies d`pos
    ensures d.Valid()
    ensures Gave(ElemsAt(Reflective, k, d.data, old(d.pos), n, d.cfg, []), r, d.pos)
    ensures r.Failure? ==> r.error != MaxDepthExceeded
  {
    var xs: seq<FieldVal> := [];
    for i := 0 to n
      invariant d.Valid()
      invariant ElemsAt(Reflective, k, d.data, old(d.pos), n, d.cfg, [])
                == ElemsAt(Reflective, k, d.data, d.pos, n - i, d.cfg, xs)
    {
      var x :- ReflectiveElem(d, k);
      xs := xs + [x];
    }
    return Success(xs);
  }

  /** `decodeIntoValue` on an element: nil is its zero value. */
  method ReflectiveElem(d: Decoder, k: FieldKind) returns (r: Result<FieldVal>)
    requires d.Valid() && IsScalar(k)
    modifies d`pos
    ensures d.Valid() && Gave(ElemAt(Reflective, k, d.data, old(d.pos), d.cfg), r, d.pos)
    ensures r.Failure? ==> r.error != MaxDepthExceeded
  {
    var f :- d.ReadByte();
    if f == NIL { return Success(Zero(k)); }
    r := DecodeScalar(d, k, f, Reflective);
  }

  /** `decodeIntoValue` on a field. */
  method ReflectiveField(d: Decoder, k: FieldKind, dst: array<FieldVal>, j: nat) returns (r: Result<()>)
    requires d.Valid() && Flat(k) && j < dst.Length
    modifies d`pos, d`depth, dst
    ensures d.Valid()
    ensures match FieldAt(Reflective, k, old(dst[j]), d.data, old(d.pos), d.cfg, old(d.depth))
            case Fail(e, p) => r == Failure(e) && d.pos == p && dst[..] == old(dst[..])
            case Ok(v, p) => r == Success(()) && d.pos == p && dst[..] == old(dst[..])[j := v]
    ensures DepthKept(old(d.depth), r, d.depth)
  {
    var f :- d.ReadByte();
    if f == NIL { dst[j] := Zero(k); return Success(()); }
    var v: FieldVal;
    if k.FSlice? { v :- ReflectiveSlice(d, k.elem, f); } else { v :- DecodeScalar(d, k, f, Reflective); }
    dst[j] := v;
    return Success(());
  }

  /** A pair whose key is no string: both halves are skipped. */
  method SkipPair(d: Decoder, keyFormat: byte, ghost fields: seq<Field>,
                  ghost dst: seq<FieldVal>) returns (r: Result<()>)
    requires d.Valid() && d.pos > 0 && d.data[d.pos - 1] == keyFormat && !IsStr(keyFormat) && Shaped(fields, dst)
    modifies d`pos, d`depth, d`slots
    ensures d.Valid()
    ensures Ended(PairAt(Reflective, fields, dst, d.data, old(d.pos) - 1, d.cfg, old(d.depth)), r, d.pos, dst)
    ensures DepthKept(old(d.depth), r, d.depth)
  {
    var _ :- d.DecodeValue(keyFormat);
    var _ :- d.Decode();
    return Success(());
  }

  /** One round of the loop of `DecodeStruct`. */
  method ReflectivePair(d: Decoder, fields: seq<Field>, dst: array<FieldVal>) returns (r: Result<()>)
    requires d.Valid() && Shaped(fields, dst[..])
    modifies d`pos, d`depth, d`slots, dst
    ensures d.Valid()
    ensures Ended(PairAt(Reflective, fields, old(dst[..]), d.data, old(d.pos), d.cfg, old(d.depth)), r, d.pos, dst[..])
    ensures DepthKept(old(d.depth), r, d.depth)
  {
    hide BE, UnBE, Denote, IsFixstr, ParseCounted, ParseAll, Find, NamedAt;
    SoundItem(TypedMode, d.data, d.pos, true, d.cfg, d.depth);
    var keyFormat :- d.ReadByte();
    Unfold(TypedMode, d.data, old(d.pos), true, d.cfg, d.depth);
    if !IsFixstr(keyFormat) && !(STR8 <= keyFormat <= STR32) {
      r := SkipPair(d, keyFormat, fields, dst[..]);
      return;
    }
    var key :- DecodeAnyStr(d, keyFormat, TypedMode);
    r := ReflectiveNamed(d, fields, dst, key);
  }

  /** The rest of that round, once the key has been read. */
  method ReflectiveNamed(d: Decoder, fields: seq<Field>, dst: array<FieldVal>, key: bytes) returns (r: Result<()>)
    requires d.Valid() && Shaped(fields, dst[..])
    modifies d`pos, d`depth, d`slots, dst
    ensures d.Valid()
    ensures Ended(NamedAt(Reflective, fields, old(dst[..]), key, d.data, old(d.pos), d.cfg, old(d.depth)), r, d.pos,
                  dst[..])
    ensures DepthKept(old(d.depth), r, d.depth)
  {
    hide FieldAt;
    var j := FindField(fields, key);
    if j < 0 {
      var _ :- d.Decode();
      return Success(());
    }
    r := ReflectiveField(d, fields[j].kind, dst, j);
  }

  /** `DecodeStruct`. */
  method DecodeStruct(d: Decoder, fields: seq<Field>, dst: array<FieldVal>) returns (r: Result<()>)
    requires d.Valid() && Shaped(fields, dst[..])
    modifies d`pos, d`depth, d`slots, dst
    ensures d.Valid()
    ensures Ended(StructAt(Reflective, fields, old(dst[..]), d.data, old(d.pos), d.cfg, old(d.depth)), r, d.pos,
                  dst[..])
    ensures DepthKept(old(d.depth), r, d.depth)
  {
    hide CountAt, PairsAt;
    var format :- d.ReadByte();
    if format == NIL { return Success(()); }
    var n :- ReadCount(d, Kind.Map, format);
    var _ :- d.EnterContainer();
    r := ReflectivePairs(d, fields, dst, n);
    d.LeaveContainer();  // the deferred call
  }

  /** The loop of `DecodeStruct`, between entering and leaving the container. */
  method ReflectivePairs(d: Decoder, fields: seq<Field>, dst: array<FieldVal>, n: nat) returns (r: Result<()>)
    requires d.Valid() && Shaped(fields, dst[..])
    modifies d`pos, d`depth, d`slots, dst
    ensures d.Valid()
    ensures Ended(PairsAt(Reflective, fields, old(dst[..]), d.data, old(d.pos), n, d.cfg, old(d.depth)), r, d.pos,
                  dst[..])
    ensures DepthKept(old(d.depth), r, d.depth)
  {
    hide PairAt;
    ghost var start, init := d.pos, dst[..];
    for i := 0 to n
      invariant d.Valid() && d.depth == old(d.depth) && Shaped(fields, dst[..])
      invariant PairsAt(Reflective, fields, init, d.data, start, n, d.cfg, d.depth)
             == PairsAt(Reflective, fields, dst[..], d.data, d.pos, n - i, d.cfg, d.depth)
    {
      var _ :- ReflectivePair(d, fields, dst);
    }
    return Success(());
  }
}
