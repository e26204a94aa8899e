/** `DecodeAny` (decode_any.go), its copy in typed_decode.go, and the fast paths of `Encode` (encode.go). */
module AnyCodec {
  import opened Bytes
  import opened Format
  import opened Wire
  import opened Values
  import opened Grammar
  import opened Encoding
  import opened Decoding
  import opened EncoderModule
  import opened Natives
  import opened NativeRoundTrip

  /** The native value returned is what the tree parsed means. */
  ghost predicate ReturnedAny(parsed: Res<Wire>, r: Result<Native>, pos: nat) {
    match parsed
    case Fail(e, p) => r == Failure(e) && pos == p
    case Ok(w, p) => Legal(w) && r == Success(NativeOf(Denote(w))) && pos == p
  }

  ghost predicate ReturnedItems(parsed: Res<seq<Wire>>, r: Result<seq<Native>>, pos: nat) {
    match parsed
    case Fail(e, p) => r == Failure(e) && pos == p
    case Ok(ws, p) => LegalAll(ws) && r == Success(NativeAll(DenoteAll(ws))) && pos == p
  }

  ghost predicate ReturnedMap(parsed: Res<seq<Wire>>, r: Result<map<bytes, Native>>, pos: nat) {
    match parsed
    case Fail(e, p) => r == Failure(e) && pos == p
    case Ok(ws, p) => LegalAll(ws) && |ws| % 2 == 0 && r == Success(NativePairs(DenotePairs(ws))) && pos == p
  }

  ghost predicate ReturnedString(parsed: Res<Wire>, r: Result<bytes>, pos: nat) {
    match parsed
    case Fail(e, p) => r == Failure(e) && pos == p
    case Ok(w, p) => Legal(w) && IsStr(w.format) && r == Success(w.payload) && pos == p
  }

  // ---- leaves; the two decoders have the same code for them ----

  method DecodeAnyUint(d: Decoder, format: byte, ghost m: Mode) returns (r: Result<Native>)
    requires d.Valid() && UINT8 <= format <= UINT64
    modifies d`pos
    ensures d.Valid() && ReturnedAny(ParseBody(m, d.data, old(d.pos), format, d.cfg, d.depth), r, d.pos)
    ensures r.Failure? ==> r.error != MaxDepthExceeded
  {
    PowValues();
    var v: nat;
    if format == UINT8 { v :- d.ReadUint(1); return Success(NInt(v)); }
    if format == UINT16 { v :- d.ReadUint(2); return Success(NInt(v)); }
    if format == UINT32 { v :- d.ReadUint(4); return Success(NInt(v)); }
    v :- d.ReadUint(8);
    if v > MAX_INT64 { return Success(NUint(v)); }
    return Success(NInt(v));
  }

  method DecodeAnyInt(d: Decoder, format: byte, ghost m: Mode) returns (r: Result<Native>)
    requires d.Valid() && INT8 <= format <= INT64
    modifies d`pos
    ensures d.Valid() && ReturnedAny(ParseBody(m, d.data, old(d.pos), format, d.cfg, d.depth), r, d.pos)
    ensures r.Failure? ==> r.error != MaxDepthExceeded
  {
    PowValues();
    var v: nat;
    if format == INT8 { v :- d.ReadUint(1); return Success(NInt(Signed(1, v))); }
    if format == INT16 { v :- d.ReadUint(2); return Success(NInt(Signed(2, v))); }
    if format == INT32 { v :- d.ReadUint(4); return Success(NInt(Signed(4, v))); }
    v :- d.ReadUint(8);
    return Success(NInt(Signed(8, v)));
  }

  method DecodeAnyFloat(d: Decoder, format: byte, ghost m: Mode) returns (r: Result<Native>)
    requires d.Valid() && (format == FLOAT32 || format == FLOAT64)
    modifies d`pos
    ensures d.Valid() && ReturnedAny(ParseBody(m, d.data, old(d.pos), format, d.cfg, d.depth), r, d.pos)
    ensures r.Failure? ==> r.error != MaxDepthExceeded
  {
    PowValues();
    var v: nat;
    if format == FLOAT32 { v :- d.ReadUint(4); return Success(NWidened(v)); }
    v :- d.ReadUint(8);
    return Success(NFloat(v));
  }

  /** `decodeStringAny` and `decodeStringWithLen`, with or without a copy. */
  method DecodeStringAny(d: Decoder, n: nat, ghost format: byte, ghost m: Mode) returns (r: Result<bytes>)
    requires d.Valid() && ShapeOf(format).Counted? && ShapeOf(format).kind.Str? && Holds(ShapeOf(format).field, n)
    modifies d`pos
    ensures d.Valid()
    ensures ReturnedString(ParseCounted(m, d.data, old(d.pos), format, Kind.Str, n, d.cfg, d.depth), r, d.pos)
    ensures r.Failure? ==> r.error != MaxDepthExceeded
  {
    var s :- d.TakeString(n);
    return Success(View(d.data, s));
  }

  method DecodeBinaryAny(d: Decoder, n: nat, ghost format: byte, ghost m: Mode) returns (r: Result<Native>)
    requires d.Valid() && ShapeOf(format).Counted? && ShapeOf(format).kind.Bin? && Holds(ShapeOf(format).field, n)
    modifies d`pos
    ensures d.Valid()
    ensures ReturnedAny(ParseCounted(m, d.data, old(d.pos), format, Kind.Bin, n, d.cfg, d.depth), r, d.pos)
    ensures r.Failure? ==> r.error != MaxDepthExceeded
  {
    var s :- d.TakeBinary(n);
    return Success(NBin(View(d.data, s)));
  }

  /** A string value: the count, then the bytes. */
  method DecodeAnyStr(d: Decoder, format: byte, ghost m: Mode) returns (r: Result<bytes>)
    requires d.Valid() && IsStr(format)
    modifies d`pos
    ensures d.Valid() && ReturnedString(ParseBody(m, d.data, old(d.pos), format, d.cfg, d.depth), r, d.pos)
    ensures r.Failure? ==> r.error != MaxDepthExceeded
  {
    var n :- d.ParseStringLen(format);
    CountKnown(m, d.data, old(d.pos), format, d.cfg, d.depth);
    r := DecodeStringAny(d, n, format, m);
  }

  method DecodeAnyBin(d: Decoder, format: byte, ghost m: Mode) returns (r: Result<Native>)
    requires d.Valid() && BIN8 <= format <= BIN32
    modifies d`pos
    ensures d.Valid() && ReturnedAny(ParseBody(m, d.data, old(d.pos), format, d.cfg, d.depth), r, d.pos)
    ensures r.Failure? ==> r.error != MaxDepthExceeded
  {
    var n :- d.ParseBinaryLen(format);
    CountKnown(m, d.data, old(d.pos), format, d.cfg, d.depth);
    r := DecodeBinaryAny(d, n, format, m);
  }

  /** The cases of the switch without a count. */
  method DecodeAnyScalar(d: Decoder, format: byte, ghost m: Mode) returns (r: Result<Native>)
    requires d.Valid() && 0xc0 <= format < 0xe0 && ShapeOf(format).Scalar?
    modifies d`pos
    ensures d.Valid() && ReturnedAny(ParseBody(m, d.data, old(d.pos), format, d.cfg, d.depth), r, d.pos)
    ensures r.Failure? ==> r.error != MaxDepthExceeded
  {
    match format {
      case 0xc0 => return Success(NNil);
      case 0xc2 => return Success(NBool(false));
      case 0xc3 => return Success(NBool(true));
      case 0xca | 0xcb => r := DecodeAnyFloat(d, format, m);
      case 0xcc | 0xcd | 0xce | 0xcf => r := DecodeAnyUint(d, format, m);
      case _ => r := DecodeAnyInt(d, format, m);
    }
  }

  /** Everything but arrays and maps. */
  method DecodeAnyLeaf(d: Decoder, format: byte, ghost m: Mode) returns (r: Result<Native>)
    requires d.Valid() && !m.ValueMode?
    requires !(ShapeOf(format).Counted? && (ShapeOf(format).kind.Arr? || ShapeOf(format).kind.Map?))
    modifies d`pos
    ensures d.Valid() && ReturnedAny(ParseBody(m, d.data, old(d.pos), format, d.cfg, d.depth), r, d.pos)
    ensures r.Failure? ==> r.error != MaxDepthExceeded
  {
    hide IsFixstr, IsPositiveFixint;
    if IsPositiveFixint(format) { return Success(NInt(format)); }
    if IsNegativeFixint(format) { return Success(NInt(format - 0x100)); }
    if IsFixstr(format) || STR8 <= format <= STR32 {
      var s := DecodeAnyStr(d, format, m);
      return s.Map(x => NStr(x));
    }
    if BIN8 <= format <= BIN32 { r := DecodeAnyBin(d, format, m); return; }
    if format == NIL || format == FALSE || format == TRUE || FLOAT32 <= format <= INT64 {
      r := DecodeAnyScalar(d, format, m);
      return;
    }
    return Failure(InvalidFormat);
  }

  lemma SomeItems(ws: seq<Wire>, ts: seq<Native>, w: Wire)
    requires LegalAll(ws) && ts == NativeAll(DenoteAll(ws)) && Legal(w)
    ensures LegalAll(ws + [w]) && ts + [NativeOf(Denote(w))] == NativeAll(DenoteAll(ws + [w]))
  {
    DenoteAppend(ws, w);
    NativeAppend(DenoteAll(ws), Denote(w));
  }

  lemma SomePairs(ws: seq<Wire>, m: map<bytes, Native>, k: Wire, w: Wire)
    requires LegalAll(ws) && |ws| % 2 == 0 && m == NativePairs(DenotePairs(ws))
    requires Legal(k) && IsStr(k.format) && Legal(w)
    ensures LegalAll(ws + [k, w]) && m[k.payload := NativeOf(Denote(w))] == NativePairs(DenotePairs(ws + [k, w]))
  {
    DenotePairAppend(ws, k, w);
    NativePairAppend(DenotePairs(ws), KV(KeyOf(k), Denote(w)));
  }

  ghost predicate ReturnedPairAny(m: Mode, data: bytes, key: Res<Wire>, cfg: Config, depth: int,
                                  r: Result<(bytes, Native)>, pos: nat)
    requires key.Ok? ==> key.pos <= |data|
  {
    match key
    case Fail(e, p) => r == Failure(e) && pos == p
    case Ok(k, q) =>
      Legal(k) && IsStr(k.format) &&
      match Parse(m, data, q, cfg, depth)
      case Fail(e, p) => r == Failure(e) && pos == p
      case Ok(w, p) => Legal(w) && r == Success((k.payload, NativeOf(Denote(w)))) && pos == p
  }

  // ---- decode_any.go ----

  /** `DecodeAny`. */
  method DecodeAny(d: Decoder) returns (r: Result<Native>)
    requires d.Valid()
    modifies d`pos, d`depth
    ensures d.Valid() && ReturnedAny(Parse(AnyMode, d.data, old(d.pos), d.cfg, old(d.depth)), r, d.pos)
    ensures DepthKept(old(d.depth), r, d.depth)
    decreases |d.data| - d.pos, 0
  {
    var format :- d.ReadByte();
    r := DecodeAnyValue(d, format);
  }

  /** `Decoder.decodeAnyValue`. */
  method DecodeAnyValue(d: Decoder, format: byte) returns (r: Result<Native>)
    requires d.Valid()
    modifies d`pos, d`depth
    ensures d.Valid() && ReturnedAny(ParseBody(AnyMode, d.data, old(d.pos), format, d.cfg, old(d.depth)), r, d.pos)
    ensures DepthKept(old(d.depth), r, d.depth)
    decreases |d.data| - d.pos, 4
  {
    hide IsFixmap, IsFixarray, Low4, ParseCounted, ParseAll, Denote, DenoteAll;
    if IsFixmap(format) { r := DecodeMapAny(d, Low4(format), format); }
    else if IsFixarray(format) { r := DecodeArrayAny(d, Low4(format), format); }
    else if format == ARRAY16 || format == ARRAY32 { r := DecodeArrayVarAny(d, format); }
    else if format == MAP16 || format == MAP32 { r := DecodeMapVarAny(d, format); }
    else { r := DecodeAnyLeaf(d, format, AnyMode); }
  }

  method DecodeArrayVarAny(d: Decoder, format: byte) returns (r: Result<Native>)
    requires d.Valid() && ARRAY16 <= format <= ARRAY32
    modifies d`pos, d`depth
    ensures d.Valid() && ReturnedAny(ParseBody(AnyMode, d.data, old(d.pos), format, d.cfg, old(d.depth)), r, d.pos)
    ensures DepthKept(old(d.depth), r, d.depth)
    decreases |d.data| - d.pos, 3, 0
  {
    var n :- d.ParseArrayLen(format);
    CountKnown(AnyMode, d.data, old(d.pos), format, d.cfg, d.depth);
    r := DecodeArrayAny(d, n, format);
  }

  method DecodeMapVarAny(d: Decoder, format: byte) returns (r: Result<Native>)
    requires d.Valid() && MAP16 <= format <= MAP32
    modifies d`pos, d`depth
    ensures d.Valid() && ReturnedAny(ParseBody(AnyMode, d.data, old(d.pos), format, d.cfg, old(d.depth)), r, d.pos)
    ensures DepthKept(old(d.depth), r, d.depth)
    decreases |d.data| - d.pos, 3, 0
  {
    var n :- d.ParseMapLen(format);
    CountKnown(AnyMode, d.data, old(d.pos), format, d.cfg, d.depth);
    r := DecodeMapAny(d, n, format);
  }

  /** `decodeArrayAny`. */
  method DecodeArrayAny(d: Decoder, n: nat, ghost format: byte) returns (r: Result<Native>)
    requires d.Valid() && ShapeOf(format).Counted? && ShapeOf(format).kind.Arr? && Holds(ShapeOf(format).field, n)
    modifies d`pos, d`depth
    ensures d.Valid()
    ensures ReturnedAny(ParseCounted(AnyMode, d.data, old(d.pos), format, Arr, n, d.cfg, old(d.depth)), r, d.pos)
    ensures DepthKept(old(d.depth), r, d.depth)
    decreases |d.data| - d.pos, 3
  {
    var _ :- d.ValidateLen(Arr, n);
    var _ :- d.EnterContainer();
    SoundAll(AnyMode, d.data, d.pos, n, false, d.cfg, d.depth);
    var items := DecodeItemsAny(d, n);
    d.LeaveContainer();  // the deferred call
    return items.Map(x => NArr(x));
  }

  method DecodeItemsAny(d: Decoder, n: nat) returns (r: Result<seq<Native>>)
    requires d.Valid()
    modifies d`pos, d`depth
    ensures d.Valid() && ReturnedItems(ParseAll(AnyMode, d.data, old(d.pos), n, false, d.cfg, old(d.depth)), r, d.pos)
    ensures DepthKept(old(d.depth), r, d.depth)
    decreases |d.data| - d.pos, 2
  {
    var arr: seq<Native> := [];
    ghost var ws: seq<Wire>, start, k := [], d.pos, d.depth;
    PrependNone(ParseAll(AnyMode, d.data, d.pos, n, false, d.cfg, k));
    for i := 0 to n
      invariant d.Valid() && d.depth == k && Pending(AnyMode, d.data, start, n, ws, d.pos, n - i, false, d.cfg, k)
      invariant LegalAll(ws) && arr == NativeAll(DenoteAll(ws))
    {
      ghost var p := d.pos;
      var v := DecodeAny(d);
      StepItem(AnyMode, d.data, p, n - i, d.cfg, k, ws);
      if v.Failure? { return Failure(v.error); }
      ghost var w := Parse(AnyMode, d.data, p, d.cfg, k).value;
      SomeItems(ws, arr, w);
      arr := arr + [v.value];
      ws := ws + [w];
    }
    PendingDone(AnyMode, d.data, start, n, ws, d.pos, false, d.cfg, k);
    return Success(arr);
  }

  /** `decodeMapAny`. */
  method DecodeMapAny(d: Decoder, n: nat, ghost format: byte) returns (r: Result<Native>)
    requires d.Valid() && ShapeOf(format).Counted? && ShapeOf(format).kind.Map? && Holds(ShapeOf(format).field, n)
    modifies d`pos, d`depth
    ensures d.Valid()
    ensures ReturnedAny(ParseCounted(AnyMode, d.data, old(d.pos), format, Kind.Map, n, d.cfg, old(d.depth)), r, d.pos)
    ensures DepthKept(old(d.depth), r, d.depth)
    decreases |d.data| - d.pos, 3
  {
    var _ :- d.ValidateLen(Kind.Map, n);
    var _ :- d.EnterContainer();
    SoundAll(AnyMode, d.data, d.pos, 2 * n, true, d.cfg, d.depth);
    var pairs := DecodePairsAny(d, n);
    d.LeaveContainer();  // the deferred call
    return pairs.Map(x => NMap(x));
  }

  method DecodePairsAny(d: Decoder, n: nat) returns (r: Result<map<bytes, Native>>)
    requires d.Valid()
    modifies d`pos, d`depth
    ensures d.Valid() && ReturnedMap(ParseAll(AnyMode, d.data, old(d.pos), 2 * n, true, d.cfg, old(d.depth)), r, d.pos)
    ensures DepthKept(old(d.depth), r, d.depth)
    decreases |d.data| - d.pos, 2
  {
    hide ParseItem, Parse, ParseAll;
    var m: map<bytes, Native> := map[];
    ghost var ws: seq<Wire>, start, k := [], d.pos, d.depth;
    PrependNone(ParseAll(AnyMode, d.data, d.pos, 2 * n, true, d.cfg, k));
    for i := 0 to n
      invariant d.Valid() && d.depth == k &&
                Pending(AnyMode, d.data, start, 2 * n, ws, d.pos, 2 * (n - i), true, d.cfg, k)
      invariant LegalAll(ws) && |ws| % 2 == 0 && m == NativePairs(DenotePairs(ws))
    {
      ghost var p := d.pos;
      var kv := DecodePairAny(d);
      StepTwo(AnyMode, d.data, p, n - i, d.cfg, k, ws);
      if kv.Failure? { return Failure(kv.error); }
      ghost var key := ParseItem(AnyMode, d.data, p, true, d.cfg, k);
      ghost var w := Parse(AnyMode, d.data, key.pos, d.cfg, k).value;
      SomePairs(ws, m, key.value, w);
      m := m[kv.value.0 := kv.value.1];
      ws := ws + [key.value, w];
    }
    PendingDone(AnyMode, d.data, start, 2 * n, ws, d.pos, true, d.cfg, k);
    return Success(m);
  }

  /** One round of the loop of `decodeMapAny`: only a type mismatch of the key becomes an invalid format. */
  method DecodePairAny(d: Decoder) returns (r: Result<(bytes, Native)>)
    requires d.Valid()
    modifies d`pos, d`depth
    ensures d.Valid()
    ensures ReturnedPairAny(AnyMode, d.data, ParseItem(AnyMode, d.data, old(d.pos), true, d.cfg, old(d.depth)),
                            d.cfg, old(d.depth), r, d.pos)
    ensures DepthKept(old(d.depth), r, d.depth)
    decreases |d.data| - d.pos, 1
  {
    var key :- DecodeKeyAny(d);
    var val :- DecodeAny(d);
    return Success((key, val));
  }

  method DecodeKeyAny(d: Decoder) returns (r: Result<bytes>)
    requires d.Valid()
    modifies d`pos
    ensures d.Valid() && ReturnedString(ParseItem(AnyMode, d.data, old(d.pos), true, d.cfg, d.depth), r, d.pos)
    ensures r.Failure? ==> r.error != MaxDepthExceeded
    ensures r.Success? ==> d.pos > old(d.pos)
  {
    hide ParseAll, ParseCounted;
    var keyFormat :- d.ReadByte();
    Unfold(AnyMode, d.data, old(d.pos), true, d.cfg, d.depth);
    var n := d.ParseStringLen(keyFormat);
    if n.Failure? {
      if n.error == TypeMismatch { return Failure(InvalidFormat); }
      return Failure(n.error);
    }
    CountKnown(AnyMode, d.data, old(d.pos) + 1, keyFormat, d.cfg, d.depth);
    r := DecodeStringAny(d, n.value, keyFormat, AnyMode);
  }

  // ---- typed_decode.go: no depth is counted, and a bad key stays a type mismatch ----

  /** The package-level `decodeAnyValue`; zeroCopy decides only whether bytes are shared or copied. */
  method TypedAny(d: Decoder, zeroCopy: bool) returns (r: Result<Native>)
    requires d.Valid()
    modifies d`pos
    ensures d.Valid() && ReturnedAny(Parse(TypedMode, d.data, old(d.pos), d.cfg, d.depth), r, d.pos)
    decreases |d.data| - d.pos, 0
  {
    var format :- d.ReadByte();
    r := TypedBody(d, format, zeroCopy);
  }

  method TypedBody(d: Decoder, format: byte, zeroCopy: bool) returns (r: Result<Native>)
    requires d.Valid()
    modifies d`pos
    ensures d.Valid() && ReturnedAny(ParseBody(TypedMode, d.data, old(d.pos), format, d.cfg, d.depth), r, d.pos)
    decreases |d.data| - d.pos, 4
  {
    hide IsFixmap, IsFixarray, Low4;
    if IsFixmap(format) { r := TypedMap(d, Low4(format), format, zeroCopy); }
    else if IsFixarray(format) { r := TypedArray(d, Low4(format), format, zeroCopy); }
    else if format == ARRAY16 || format == ARRAY32 { r := TypedArrayVar(d, format, zeroCopy); }
    else if format == MAP16 || format == MAP32 { r := TypedMapVar(d, format, zeroCopy); }
    else { r := DecodeAnyLeaf(d, format, TypedMode); }
  }

  /** `decodeAnyArray`. */
  method TypedArrayVar(d: Decoder, format: byte, zeroCopy: bool) returns (r: Result<Native>)
    requires d.Valid() && ARRAY16 <= format <= ARRAY32
    modifies d`pos
    ensures d.Valid() && ReturnedAny(ParseBody(TypedMode, d.data, old(d.pos), format, d.cfg, d.depth), r, d.pos)
    decreases |d.data| - d.pos, 3, 0
  {
    var n :- d.ParseArrayLen(format);
    CountKnown(TypedMode, d.data, old(d.pos), format, d.cfg, d.depth);
    r := TypedArray(d, n, format, zeroCopy);
  }

  /** `decodeAnyMap`. */
  method TypedMapVar(d: Decoder, format: byte, zeroCopy: bool) returns (r: Result<Native>)
    requires d.Valid() && MAP16 <= format <= MAP32
    modifies d`pos
    ensures d.Valid() && ReturnedAny(ParseBody(TypedMode, d.data, old(d.pos), format, d.cfg, d.depth), r, d.pos)
    decreases |d.data| - d.pos, 3, 0
  {
    var n :- d.ParseMapLen(format);
    CountKnown(TypedMode, d.data, old(d.pos), format, d.cfg, d.depth);
    r := TypedMap(d, n, format, zeroCopy);
  }

  /** `decodeArrayAnyWithLen`. */
  method TypedArray(d: Decoder, n: nat, ghost format: byte, zeroCopy: bool) returns (r: Result<Native>)
    requires d.Valid() && ShapeOf(format).Counted? && ShapeOf(format).kind.Arr? && Holds(ShapeOf(format).field, n)
    modifies d`pos
    ensures d.Valid()
    ensures ReturnedAny(ParseCounted(TypedMode, d.data, old(d.pos), format, Arr, n, d.cfg, d.depth), r, d.pos)
    decreases |d.data| - d.pos, 3
  {
    hide Parse, ParseAll;
    var _ :- d.ValidateLen(Arr, n);
    SoundAll(TypedMode, d.data, d.pos, n, false, d.cfg, d.depth);
    var arr: seq<Native> := [];
    ghost var ws: seq<Wire>, start, k := [], d.pos, d.depth;
    PrependNone(ParseAll(TypedMode, d.data, d.pos, n, false, d.cfg, k));
    for i := 0 to n
      invariant d.Valid() && Pending(TypedMode, d.data, start, n, ws, d.pos, n - i, false, d.cfg, k)
      invariant LegalAll(ws) && arr == NativeAll(DenoteAll(ws))
    {
      ghost var p := d.pos;
      var v := TypedAny(d, zeroCopy);
      StepItem(TypedMode, d.data, p, n - i, d.cfg, k, ws);
      if v.Failure? { return Failure(v.error); }
      ghost var w := Parse(TypedMode, d.data, p, d.cfg, k).value;
      SomeItems(ws, arr, w);
      arr := arr + [v.value];
      ws := ws + [w];
    }
    PendingDone(TypedMode, d.data, start, n, ws, d.pos, false, d.cfg, k);
    return Success(NArr(arr));
  }

  /** `decodeMapStringAnyWithLen`. */
  method TypedMap(d: Decoder, n: nat, ghost format: byte, zeroCopy: bool) returns (r: Result<Native>)
    requires d.Valid() && ShapeOf(format).Counted? && ShapeOf(format).kind.Map? && Holds(ShapeOf(format).field, n)
    modifies d`pos
    ensures d.Valid()
    ensures ReturnedAny(ParseCounted(TypedMode, d.data, old(d.pos), format, Kind.Map, n, d.cfg, d.depth), r, d.pos)
    decreases |d.data| - d.pos, 3
  {
    var _ :- d.ValidateLen(Kind.Map, n);
    SoundAll(TypedMode, d.data, d.pos, 2 * n, true, d.cfg, d.depth);
    var pairs := TypedPairs(d, n, zeroCopy);
    return pairs.Map(x => NMap(x));
  }

  method TypedPairs(d: Decoder, n: nat, zeroCopy: bool) returns (r: Result<map<bytes, Native>>)
    requires d.Valid()
    modifies d`pos
    ensures d.Valid() && ReturnedMap(ParseAll(TypedMode, d.data, old(d.pos), 2 * n, true, d.cfg, d.depth), r, d.pos)
    decreases |d.data| - d.pos, 2
  {
    hide DenotePairs, Legal, ParseItem, Parse, ParseAll, Fits, FitsAll, Flatten, FlattenAll, Body, Denote, DenoteAll;
    var m: map<bytes, Native> := map[];
    ghost var ws: seq<Wire>, start, k := [], d.pos, d.depth;
    PrependNone(ParseAll(TypedMode, d.data, d.pos, 2 * n, true, d.cfg, k));
    for i := 0 to n
      invariant d.Valid() && Pending(TypedMode, d.data, start, 2 * n, ws, d.pos, 2 * (n - i), true, d.cfg, k)
      invariant LegalAll(ws) && |ws| % 2 == 0 && m == NativePairs(DenotePairs(ws))
    {
      ghost var p := d.pos;
      var kv := TypedPair(d, zeroCopy);
      StepTwo(TypedMode, d.data, p, n - i, d.cfg, k, ws);
      if kv.Failure? { return Failure(kv.error); }
      ghost var key := ParseItem(TypedMode, d.data, p, true, d.cfg, k);
      ghost var w := Parse(TypedMode, d.data, key.pos, d.cfg, k).value;
      SomePairs(ws, m, key.value, w);
      m := m[kv.value.0 := kv.value.1];
      ws := ws + [key.value, w];
    }
    PendingDone(TypedMode, d.data, start, 2 * n, ws, d.pos, true, d.cfg, k);
    return Success(m);
  }

  method TypedPair(d: Decoder, zeroCopy: bool) returns (r: Result<(bytes, Native)>)
    requires d.Valid()
    modifies d`pos
    ensures d.Valid()
    ensures ReturnedPairAny(TypedMode, d.data, ParseItem(TypedMode, d.data, old(d.pos), true, d.cfg, d.depth),
                            d.cfg, d.depth, r, d.pos)
    decreases |d.data| - d.pos, 1
  {
    var key :- ReadStringBytes(d);
    var val :- TypedAny(d, zeroCopy);
    return Success((key, val));
  }

  /** `readStringBytes` (decoder.go). */
  method ReadStringBytes(d: Decoder) returns (r: Result<bytes>)
    requires d.Valid()
    modifies d`pos
    ensures d.Valid() && ReturnedString(ParseItem(TypedMode, d.data, old(d.pos), true, d.cfg, d.depth), r, d.pos)
    ensures r.Success? ==> d.pos > old(d.pos)
    ensures r.Failure? ==> r.error != MaxDepthExceeded
  {
    hide IsFixstr;
    var format :- d.ReadByte();
    Unfold(TypedMode, d.data, old(d.pos), true, d.cfg, d.depth);
    if !IsFixstr(format) && !(STR8 <= format <= STR32) { return Failure(TypeMismatch); }
    r := DecodeAnyStr(d, format, TypedMode);
  }

  // ---- encode.go: `Encode` on native values ----

  /** Values a caller can hold: a widened float32 is an `NFloat` once it is in a Go variable. */
  predicate Own(t: Native) {
    match t
    case NWidened(_) => false
    case NArr(ts) => forall i :: 0 <= i < |ts| ==> Own(ts[i])
    case NMap(m) => forall k | k in m :: Own(m[k])
    case _ => true
  }

  lemma {:induction false} FlattenAppend(ws: seq<Wire>, w: Wire)
    ensures FlattenAll(ws + [w]) == FlattenAll(ws) + Flatten(w)
  {
    if ws == [] {
      assert ws + [w] == [w];
    } else {
      FlattenAppend(ws[1..], w);
      assert (ws + [w])[1..] == ws[1..] + [w];
      Glue(Flatten(ws[0]), FlattenAll(ws[1..]), Flatten(w));
    }
  }

  lemma GlueAppend(before: bytes, ws: seq<Wire>, w: Wire)
    ensures before + FlattenAll(ws + [w]) == before + FlattenAll(ws) + Flatten(w)
  {
    FlattenAppend(ws, w);
    Glue(before, FlattenAll(ws), Flatten(w));
  }

  lemma GlueTwo(before: bytes, ws: seq<Wire>, k: Wire, w: Wire)
    ensures before + FlattenAll(ws + [k, w]) == before + FlattenAll(ws) + (Flatten(k) + Flatten(w))
  {
    Glue(before + FlattenAll(ws), Flatten(k), Flatten(w));
    GlueAppend(before, ws, k);
    GlueAppend(before, ws + [k], w);
    assert ws + [k] + [w] == ws + [k, w];
  }

  /** `Encode`: the tree written is returned as a ghost, because maps are iterated in no fixed order. */
  method Encode(e: Encoder, t: Native) returns (ghost w: Wire)
    requires e.Valid() && Own(t)
    modifies e, e.buf
    ensures e.Appended(Flatten(w)) && Writes(t, w)
    decreases t, 1
  {
    match t
    case NNil => e.EncodeNil(); w := Canon(Nil);
    case NBool(b) => e.EncodeBool(b); w := Canon(Bool(b));
    case NInt(i) => e.EncodeInt(i); w := Canon(Int(i));
    case NUint(u) => e.EncodeUint(u); w := Canon(Uint(u));
    case NFloat(b) => e.EncodeFloat64(b); w := Canon(Float64(b));
    case NFloat32(b) => e.EncodeFloat32(b); w := Canon(Float32(b));
    case NStr(s) => e.EncodeString(s); w := CanonStr(s);
    case NBin(s) => e.EncodeBinary(s); w := Canon(Value.Bin(s));
    case NArr(ts) => w := EncodeSliceAny(e, t);
    case NMap(m) => w := EncodeMapStringAny(e, t);
  }

  /** `encodeSliceAny`. */
  method EncodeSliceAny(e: Encoder, t: Native) returns (ghost w: Wire)
    requires e.Valid() && t.NArr? && Own(t)
    modifies e, e.buf
    ensures e.Appended(Flatten(w)) && Writes(t, w)
    decreases t, 0
  {
    hide Writes, Flatten, Head, Header, Legal;
    var ts := t.items;
    ghost var ws: seq<Wire>, before := [], e.Contents();
    e.EncodeArrayHeader(|ts|);
    for i := 0 to |ts|
      invariant e.Valid() && (e.buf == old(e.buf) || fresh(e.buf)) && e.peak == Max(old(e.peak), e.len)
      invariant e.Contents() == before + Header(Arr, |ts|) + FlattenAll(ws)
      invariant |ws| == i && WroteItems(ts, ws)
    {
      ghost var x := Encode(e, ts[i]);
      GlueAppend(before + Header(Arr, |ts|), ws, x);
      ws := ws + [x];
    }
    w := Node(Head(Arr, |ts|), ws);
    ArrayTree(ts, ws, before);
  }

  /** Header and items behind what was there before: the tree of the array. */
  lemma {:induction false} ArrayTree(ts: seq<Native>, ws: seq<Wire>, before: bytes)
    requires |ws| == |ts| && WroteItems(ts, ws)
    ensures var w := Node(Head(Arr, |ts|), ws);
      Writes(NArr(ts), w) && before + Header(Arr, |ts|) + FlattenAll(ws) == before + Flatten(w)
  {
    FlattenCounted(Node(Head(Arr, |ts|), ws), Arr, |ts|);
    Glue(before, Header(Arr, |ts|), FlattenAll(ws));
  }

  ghost predicate WroteItems(ts: seq<Native>, ws: seq<Wire>) {
    |ws| <= |ts| && forall j :: 0 <= j < |ws| ==> Writes(ts[j], ws[j])
  }

  /** The pairs written so far are for distinct keys of m outside `rest`. */
  ghost predicate WroteSome(m: map<bytes, Native>, rest: set<bytes>, ws: seq<Wire>) {
    && rest <= m.Keys && |ws| == 2 * (|m| - |rest|)
    && (forall i :: 0 <= i < |m| - |rest| ==>
          WritesKey(m, ws, i) && Key(ws, i) !in rest && Writes(m[Key(ws, i)], ws[2 * i + 1]))
    && (forall i, j :: 0 <= i < j < |m| - |rest| ==> Key(ws, i) != Key(ws, j))
  }

  lemma WroteOneMore(m: map<bytes, Native>, rest: set<bytes>, ws: seq<Wire>, k: bytes, x: Wire)
    requires WroteSome(m, rest, ws) && k in rest && Writes(m[k], x)
    ensures WroteSome(m, rest - {k}, ws + [CanonStr(k), x])
  {
    var ws', n := ws + [CanonStr(k), x], |m| - |rest|;
    forall i | 0 <= i < n + 1
      ensures WritesKey(m, ws', i) && Key(ws', i) !in rest - {k} && Writes(m[Key(ws', i)], ws'[2 * i + 1])
      ensures Key(ws', i) == if i < n then Key(ws, i) else k
    {
      if i < n { assert WritesKey(m, ws, i); assert ws'[2 * i] == ws[2 * i] && ws'[2 * i + 1] == ws[2 * i + 1]; }
      else { assert ws'[2 * i] == CanonStr(k) && ws'[2 * i + 1] == x; }
    }
  }

  /** One round of that loop. */
  method EncodeEntry(e: Encoder, k: bytes, v: Native) returns (ghost x: Wire)
    requires e.Valid() && Own(v)
    modifies e, e.buf
    ensures e.Appended(Flatten(CanonStr(k)) + Flatten(x)) && Writes(v, x)
    decreases v, 2
  {
    ghost var before := e.Contents();
    e.EncodeString(k);
    x := Encode(e, v);
    Glue(before, Flatten(CanonStr(k)), Flatten(x));
  }

  /** Header and pairs behind what was there before: the tree of the map. */
  lemma {:induction false} MapTree(m: map<bytes, Native>, ws: seq<Wire>, before: bytes)
    requires WroteSome(m, {}, ws)
    ensures var w := Node(Head(Kind.Map, |m|), ws);
      Writes(NMap(m), w) && before + Header(Kind.Map, |m|) + FlattenAll(ws) == before + Flatten(w)
  {
    FlattenCounted(Node(Head(Kind.Map, |m|), ws), Kind.Map, |m|);
    Glue(before, Header(Kind.Map, |m|), FlattenAll(ws));
  }

  /** `encodeMapStringAny`: the loop takes the keys in any order. */
  method EncodeMapStringAny(e: Encoder, t: Native) returns (ghost w: Wire)
    requires e.Valid() && t.NMap? && Own(t)
    modifies e, e.buf
    ensures e.Appended(Flatten(w)) && Writes(t, w)
    decreases t, 0
  {
    hide Writes, Flatten, Head, Header, Legal, CanonStr;
    var m := t.entries;
    ghost var ws: seq<Wire>, before := [], e.Contents();
    e.EncodeMapHeader(|m|);
    var rest := m.Keys;
    while rest != {}
      invariant e.Valid() && (e.buf == old(e.buf) || fresh(e.buf)) && e.peak == Max(old(e.peak), e.len)
      invariant e.Contents() == before + Header(Kind.Map, |m|) + FlattenAll(ws)
      invariant WroteSome(m, rest, ws)
      decreases |rest|
    {
      var k :| k in rest;
      ghost var x := EncodeEntry(e, k, m[k]);
      GlueTwo(before + Header(Kind.Map, |m|), ws, CanonStr(k), x);
      WroteOneMore(m, rest, ws, k, x);
      ws, rest := ws + [CanonStr(k), x], rest - {k};
    }
    w := Node(Head(Kind.Map, |m|), ws);
    MapTree(m, ws, before);
  }
}
