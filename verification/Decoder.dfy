/** The `Decoder` (decoder.go) and `Decode` (decode_value.go), proved against the parser specification. */
module Decoding {
  import opened Bytes
  import opened Format
  import opened Wire
  import opened Values
  import opened Grammar
  import opened Allocation

  datatype Result<+T> = Success(value: T) | Failure(error: Error) {
    predicate IsFailure() { Failure? }
    function PropagateFailure<U>(): Result<U> requires Failure? { Failure(error) }
    function Extract(): T requires Success? { value }
    function Map<U>(f: T -> U): Result<U> { match this case Success(v) => Success(f(v)) case Failure(e) => Failure(e) }
  }

  // ---- what the methods promise ----

  /** A read of w bytes from start, big-endian; at the end of the input nothing moves. */
  ghost predicate Fetched(data: bytes, start: nat, w: nat, r: Result<nat>, pos: nat) {
    if start + w <= |data| then r == Success(UnBE(data[start..start + w])) && pos == start + w
    else r == Failure(UnexpectedEOF) && pos == start
  }

  /** A read of the count that `format` announces for a value of the given kind. */
  ghost predicate CountRead(kind: Kind, format: byte, data: bytes, start: nat, r: Result<nat>, pos: nat) {
    if !ShapeOf(format).Counted? || ShapeOf(format).kind != kind then r == Failure(TypeMismatch) && pos == start
    else
      var field := ShapeOf(format).field;
      if start + Width(field) > |data| then r == Failure(UnexpectedEOF) && pos == start
      else r == Success(CountFrom(field, data[start..start + Width(field)])) && pos == start + Width(field)
  }

  /** n bytes from start as a window, under the string limit; nothing moves on failure. */
  ghost predicate Took(data: bytes, start: nat, n: nat, cfg: Config, r: Result<Slice>, pos: nat) {
    if n > cfg.maxStr then r == Failure(TooLong(Kind.Str)) && pos == start
    else if start + n > |data| then r == Failure(UnexpectedEOF) && pos == start
    else r == Success(Slice(start, n)) && pos == start + n
  }

  /** The value returned shows what was parsed, through windows inside the bytes consumed. */
  ghost predicate Returned(data: bytes, start: nat, parsed: Res<Wire>, r: Result<Value<Slice>>, pos: nat) {
    match parsed
    case Fail(e, p) => r == Failure(e) && pos == p
    case Ok(w, p) =>
      && r.Success? && pos == p && Legal(w)
      && Resolve(data, r.value) == Denote(w) && Ordered(Windows(r.value), start, p)
  }

  ghost predicate ReturnedKey(data: bytes, start: nat, parsed: Res<Wire>, r: Result<Option<Slice>>, pos: nat) {
    match parsed
    case Fail(e, p) => r == Failure(e) && pos == p
    case Ok(w, p) =>
      && r.Success? && pos == p && Legal(w)
      && KeyOf(w) == (if r.value.Some? then Some(View(data, r.value.value)) else None)
      && Ordered(if r.value.Some? then [r.value.value] else [], start, p)
  }

  ghost predicate ReturnedPair(data: bytes, start: nat, key: Res<Wire>, cfg: Config, depth: int, r: Result<KV<Slice>>,
                               pos: nat)
    requires key.Ok? ==> key.pos <= |data|
  {
    match key
    case Fail(e, p) => r == Failure(e) && pos == p
    case Ok(k, q) =>
      match Parse(ValueMode, data, q, cfg, depth)
      case Fail(e, p) => r == Failure(e) && pos == p
      case Ok(w, p) => r.Success? && pos == p && PairShows(data, start, q, p, k, w, r.value)
  }

  ghost predicate PairShows(data: bytes, start: nat, mid: nat, end: nat, k: Wire, w: Wire, kv: KV<Slice>) {
    && Legal(k) && Legal(w)
    && KeyOf(k) == (if kv.key.Some? then Some(View(data, kv.key.value)) else None)
    && Ordered(if kv.key.Some? then [kv.key.value] else [], start, mid)
    && Resolve(data, kv.value) == Denote(w) && Ordered(Windows(kv.value), mid, end)
  }

  /** Items read between start and pos, as windows and as trees. */
  ghost predicate ItemsRead(data: bytes, start: nat, pos: nat, vs: seq<Value<Slice>>, ws: seq<Wire>) {
    LegalAll(ws) && |ws| == |vs| && ResolveAll(data, vs) == DenoteAll(ws) && Ordered(WindowsAll(vs), start, pos)
  }

  ghost predicate PairsRead(data: bytes, start: nat, pos: nat, kvs: seq<KV<Slice>>, ws: seq<Wire>) {
    && LegalAll(ws) && |ws| == 2 * |kvs| && ResolvePairs(data, kvs) == DenotePairs(ws)
    && Ordered(WindowsPairs(kvs), start, pos)
  }

  ghost predicate ReturnedAll(data: bytes, start: nat, parsed: Res<seq<Wire>>, r: Result<seq<Value<Slice>>>, pos: nat) {
    match parsed
    case Fail(e, p) => r == Failure(e) && pos == p
    case Ok(ws, p) =>
      r.Success? && pos == p && ItemsRead(data, start, p, r.value, ws)
  }

  ghost predicate ReturnedPairs(data: bytes, start: nat, parsed: Res<seq<Wire>>, r: Result<seq<KV<Slice>>>, pos: nat) {
    match parsed
    case Fail(e, p) => r == Failure(e) && pos == p
    case Ok(ws, p) =>
      r.Success? && pos == p && PairsRead(data, start, p, r.value, ws)
  }

  /** An error from `enterContainer` leaves the depth one too high; every other outcome restores it. */
  ghost predicate DepthKept<T>(before: int, r: Result<T>, after: int) {
    after == before + if r == Failure(MaxDepthExceeded) then 1 else 0
  }

  // ---- loops ----

  function Prepend(ws: seq<Wire>, r: Res<seq<Wire>>): Res<seq<Wire>> {
    match r case Ok(more, p) => Ok(ws + more, p) case Fail(e, p) => Fail(e, p)
  }

  /** Reading one more item moves it from the parse still to come to the items already read. */
  lemma Step(m: Mode, data: bytes, pos: nat, n: nat, keyed: bool, cfg: Config, depth: int, ws: seq<Wire>)
    requires pos <= |data| && n > 0
    ensures Prepend(ws, ParseAll(m, data, pos, n, keyed, cfg, depth))
         == match ParseItem(m, data, pos, AtKey(keyed, n), cfg, depth) {
              case Fail(e, p) => Fail(e, p)
              case Ok(w, p) => Prepend(ws + [w], ParseAll(m, data, p, n - 1, keyed, cfg, depth))
            }
  {
    var item := ParseItem(m, data, pos, AtKey(keyed, n), cfg, depth);
    if item.Ok? {
      var rest := ParseAll(m, data, item.pos, n - 1, keyed, cfg, depth);
      if rest.Ok? { assert ws + ([item.value] + rest.value) == ws + [item.value] + rest.value; }
    }
  }

  /** n items were asked for at start; ws have been read and `left` are still to come at pos. */
  ghost predicate Pending(m: Mode, data: bytes, start: nat, n: nat, ws: seq<Wire>, pos: nat, left: nat, keyed: bool,
                          cfg: Config, depth: int)
  {
    && start <= pos <= |data|
    && ParseAll(m, data, start, n, keyed, cfg, depth) == Prepend(ws, ParseAll(m, data, pos, left, keyed, cfg, depth))
  }

  lemma PendingDone(m: Mode, data: bytes, start: nat, n: nat, ws: seq<Wire>, pos: nat, keyed: bool, cfg: Config,
                    depth: int)
    requires Pending(m, data, start, n, ws, pos, 0, keyed, cfg, depth)
    ensures ParseAll(m, data, start, n, keyed, cfg, depth) == Ok(ws, pos)
  {
    assert ws + [] == ws;
  }

  lemma PrependNone(r: Res<seq<Wire>>)
    ensures Prepend([], r) == r
  {
    if r.Ok? { assert [] + r.value == r.value; }
  }

  /** Once the count is read, the rest of a body is `ParseCounted`. */
  lemma CountKnown(m: Mode, data: bytes, pos: nat, format: byte, cfg: Config, depth: int)
    requires ShapeOf(format).Counted? && (ShapeOf(format).kind.Ext? ==> m.ValueMode?)
    requires pos + Width(ShapeOf(format).field) <= |data|
    ensures ParseBody(m, data, pos, format, cfg, depth)
         == ParseCounted(m, data, pos + Width(ShapeOf(format).field), format, ShapeOf(format).kind,
                         CountFrom(ShapeOf(format).field, data[pos..pos + Width(ShapeOf(format).field)]), cfg, depth)
  {
  }

  /** Strings and binary data, spelled out: the count, one limit, the bytes. */
  ghost function BlobAt(limit: int, err: Error, data: bytes, pos: nat, field: CountField): Res<bytes>
    requires pos <= |data|
  {
    var p := pos + Width(field);
    if p > |data| then Fail(UnexpectedEOF, pos)
    else
      var n := CountFrom(field, data[pos..p]);
      if n > limit then Fail(err, p)
      else if p + n > |data| then Fail(UnexpectedEOF, p)
      else Ok(data[p..p + n], p + n)
  }

  lemma ParseBlob(data: bytes, pos: nat, f: byte, cfg: Config, depth: int)
    requires pos <= |data| && ShapeOf(f).Counted? && (ShapeOf(f).kind.Str? || ShapeOf(f).kind.Bin?)
    ensures ParseBody(ValueMode, data, pos, f, cfg, depth)
         == match BlobAt(cfg.Limit(ShapeOf(f).kind), TooLong(ShapeOf(f).kind), data, pos, ShapeOf(f).field) {
              case Fail(e, p) => Fail(e, p)
              case Ok(s, p) => Ok(Leaf(f, s), p)
            }
  {
    if pos + Width(ShapeOf(f).field) <= |data| { CountKnown(ValueMode, data, pos, f, cfg, depth); }
  }

  lemma ItemIsParse(m: Mode, data: bytes, pos: nat, isKey: bool, cfg: Config, depth: int)
    requires pos <= |data| && (isKey ==> m.ValueMode?)
    ensures ParseItem(m, data, pos, isKey, cfg, depth) == Parse(m, data, pos, cfg, depth)
  {
  }

  class Decoder {
    var data: bytes
    var pos: nat
    var depth: int
    const cfg: Config
    ghost var slots: nat  // array and map slots made so far

    ghost predicate Valid()
      reads this
    {
      pos <= |data|
    }

    /** `NewDecoderWithConfig`. */
    constructor (data: bytes, cfg: Config)
      ensures Valid() && this.data == data && this.cfg == cfg && pos == 0 && depth == 0 && slots == 0
    {
      this.data, this.cfg, pos, depth, slots := data, cfg, 0, 0, 0;
    }

    /** `Reset`: whatever happened before, the initial state is re-established. */
    method Reset(data: bytes)
      modifies this
      ensures Valid() && this.data == data && pos == 0 && depth == 0 && slots == 0
    {
      this.data, pos, depth, slots := data, 0, 0, 0;
    }

    predicate HasBytes(n: nat)
      reads this
    {
      pos + n <= |data|
    }

    method ReadByte() returns (r: Result<byte>)
      requires Valid()
      modifies `pos
      ensures Valid()
      ensures if old(pos) < |data| then r == Success(data[old(pos)]) && pos == old(pos) + 1
              else r == Failure(UnexpectedEOF) && pos == old(pos)
    {
      if pos >= |data| { return Failure(UnexpectedEOF); }
      var b := data[pos];
      pos := pos + 1;
      return Success(b);
    }

    /** `readBytes`: the slice returned points into the input. */
    method ReadBytes(n: nat) returns (r: Result<Slice>)
      requires Valid()
      modifies `pos
      ensures Valid()
      ensures if old(pos) + n <= |data| then r == Success(Slice(old(pos), n)) && pos == old(pos) + n
              else r == Failure(UnexpectedEOF) && pos == old(pos)
    {
      if !HasBytes(n) { return Failure(UnexpectedEOF); }
      var s := Slice(pos, n);
      pos := pos + n;
      return Success(s);
    }

    /** `readUint8`, `readUint16`, `readUint32`, `readUint64` for w = 1, 2, 4, 8. */
    method ReadUint(w: nat) returns (r: Result<nat>)
      requires Valid()
      modifies `pos
      ensures Valid() && Fetched(data, old(pos), w, r, pos)
      ensures r.Success? ==> r.value < Pow256(w)
    {
      if !HasBytes(w) { return Failure(UnexpectedEOF); }
      var v := UnBE(data[pos..pos + w]);
      pos := pos + w;
      return Success(v);
    }

    method EnterContainer() returns (r: Result<()>)
      modifies `depth
      ensures depth == old(depth) + 1
      ensures r == if depth > cfg.maxDepth then Failure(MaxDepthExceeded) else Success(())
    {
      depth := depth + 1;
      if depth > cfg.maxDepth { return Failure(MaxDepthExceeded); }
      return Success(());
    }

    method LeaveContainer()
      modifies `depth
      ensures depth == old(depth) - 1
    {
      depth := depth - 1;
    }

    /** The five `validate*Len`: the configured limit, then the eager check of the bytes at hand. */
    method ValidateLen(kind: Kind, n: nat) returns (r: Result<()>)
      requires Valid()
      ensures r == if n > cfg.Limit(kind) then Failure(TooLong(kind))
                   else if pos + Needed(kind, n) > |data| then Failure(UnexpectedEOF)
                   else Success(())
    {
      if n > cfg.Limit(kind) { return Failure(TooLong(kind)); }
      if !HasBytes(if kind.Map? then n * 2 else n) { return Failure(UnexpectedEOF); }
      return Success(());
    }

    /** `validateStringLen`, then `readBytes`. */
    method TakeString(n: nat) returns (r: Result<Slice>)
      requires Valid()
      modifies `pos
      ensures Valid()
      ensures Took(data, old(pos), n, cfg, r, pos)
    {
      var _ :- ValidateLen(Kind.Str, n);
      r := ReadBytes(n);
    }

    /** `validateBinaryLen`, then `readBytes`. */
    method TakeBinary(n: nat) returns (r: Result<Slice>)
      requires Valid()
      modifies `pos
      ensures Valid()
      ensures n > cfg.maxBin ==> r == Failure(TooLong(Kind.Bin)) && pos == old(pos)
      ensures n <= cfg.maxBin && old(pos) + n > |data| ==> r == Failure(UnexpectedEOF) && pos == old(pos)
      ensures n <= cfg.maxBin && old(pos) + n <= |data| ==> r == Success(Slice(old(pos), n)) && pos == old(pos) + n
    {
      var _ :- ValidateLen(Kind.Bin, n);
      r := ReadBytes(n);
    }

    method ParseStringLen(format: byte) returns (r: Result<nat>)
      requires Valid()
      modifies `pos
      ensures Valid() && CountRead(Kind.Str, format, data, old(pos), r, pos)
    {
      hide IsFixstr, Low5, BE, UnBE;
      if IsFixstr(format) { return Success(Low5(format)); }
      if format == STR8 { r := ReadUint(1); }
      else if format == STR16 { r := ReadUint(2); }
      else if format == STR32 { r := ReadUint(4); }
      else { return Failure(TypeMismatch); }
    }

    method ParseBinaryLen(format: byte) returns (r: Result<nat>)
      requires Valid()
      modifies `pos
      ensures Valid() && CountRead(Kind.Bin, format, data, old(pos), r, pos)
    {
      if format == BIN8 { r := ReadUint(1); }
      else if format == BIN16 { r := ReadUint(2); }
      else if format == BIN32 { r := ReadUint(4); }
      else { return Failure(TypeMismatch); }
    }

    method ParseArrayLen(format: byte) returns (r: Result<nat>)
      requires Valid()
      modifies `pos
      ensures Valid() && CountRead(Arr, format, data, old(pos), r, pos)
    {
      hide IsFixarray, Low4;
      if IsFixarray(format) { return Success(Low4(format)); }
      if format == ARRAY16 { r := ReadUint(2); }
      else if format == ARRAY32 { r := ReadUint(4); }
      else { return Failure(TypeMismatch); }
    }

    method ParseMapLen(format: byte) returns (r: Result<nat>)
      requires Valid()
      modifies `pos
      ensures Valid() && CountRead(Kind.Map, format, data, old(pos), r, pos)
    {
      hide IsFixmap, Low4;
      if IsFixmap(format) { return Success(Low4(format)); }
      if format == MAP16 { r := ReadUint(2); }
      else if format == MAP32 { r := ReadUint(4); }
      else { return Failure(TypeMismatch); }
    }

    // ---- decode_value.go ----

    /** `Decode`. */
    method Decode() returns (r: Result<Value<Slice>>)
      requires Valid()
      modifies `pos, `depth, `slots
      ensures Valid()
      ensures Returned(data, old(pos), Parse(ValueMode, data, old(pos), cfg, old(depth)), r, pos)
      ensures DepthKept(old(depth), r, depth)
      ensures slots == old(slots) + Spent(data, old(pos), cfg, old(depth))
      decreases |data| - pos, 0
    {
      hide ParseBody, Denote, BE, UnBE;
      var format :- ReadByte();
      r := DecodeValue(format);
    }

    method DecodeUintToValue(format: byte) returns (r: Result<Value<Slice>>)
      requires Valid() && UINT8 <= format <= UINT64
      modifies `pos
      ensures Valid()
      ensures Returned(data, old(pos), ParseBody(ValueMode, data, old(pos), format, cfg, depth), r, pos)
      ensures r.Failure? ==> r.error != MaxDepthExceeded
    {
      PowValues();
      var v: nat;
      if format == UINT8 { v :- ReadUint(1); }
      else if format == UINT16 { v :- ReadUint(2); }
      else if format == UINT32 { v :- ReadUint(4); }
      else { v :- ReadUint(8); }
      return Success(Uint(v));
    }

    method DecodeIntToValue(format: byte) returns (r: Result<Value<Slice>>)
      requires Valid() && INT8 <= format <= INT64
      modifies `pos
      ensures Valid()
      ensures Returned(data, old(pos), ParseBody(ValueMode, data, old(pos), format, cfg, depth), r, pos)
      ensures r.Failure? ==> r.error != MaxDepthExceeded
    {
      PowValues();
      var v: nat;
      if format == INT8 { v :- ReadUint(1); return Success(Int(Signed(1, v))); }
      if format == INT16 { v :- ReadUint(2); return Success(Int(Signed(2, v))); }
      if format == INT32 { v :- ReadUint(4); return Success(Int(Signed(4, v))); }
      v :- ReadUint(8);
      return Success(Int(Signed(8, v)));
    }

    method DecodeFloatToValue(format: byte) returns (r: Result<Value<Slice>>)
      requires Valid() && (format == FLOAT32 || format == FLOAT64)
      modifies `pos
      ensures Valid()
      ensures Returned(data, old(pos), ParseBody(ValueMode, data, old(pos), format, cfg, depth), r, pos)
      ensures r.Failure? ==> r.error != MaxDepthExceeded
    {
      PowValues();
      var v: nat;
      if format == FLOAT32 { v :- ReadUint(4); return Success(Float32(v)); }
      v :- ReadUint(8);
      return Success(Float64(v));
    }

    method DecodeValueExtVar(format: byte) returns (r: Result<Value<Slice>>)
      requires Valid() && EXT8 <= format <= EXT32
      modifies `pos
      ensures Valid()
      ensures Returned(data, old(pos), ParseBody(ValueMode, data, old(pos), format, cfg, depth), r, pos)
      ensures r.Failure? ==> r.error != MaxDepthExceeded
    {
      hide ParseCounted, ParseAll, Ordered, BE, UnBE;
      PowValues();
      var n: nat;
      if format == EXT8 { n :- ReadUint(1); }
      else if format == EXT16 { n :- ReadUint(2); }
      else { n :- ReadUint(4); }
      r := DecodeExt(n, format);
      BehindCount(format, old(pos), r, pos);
    }

    method DecodeString(n: nat, ghost format: byte) returns (r: Result<Value<Slice>>)
      requires Valid() && ShapeOf(format).Counted? && ShapeOf(format).kind.Str? && Holds(ShapeOf(format).field, n)
      modifies `pos
      ensures Valid()
      ensures Returned(data, old(pos), ParseCounted(ValueMode, data, old(pos), format, Kind.Str, n, cfg, depth), r, pos)
      ensures r.Failure? ==> r.error != MaxDepthExceeded
    {
      var s :- TakeString(n);
      return Success(Value.Str(s));
    }

    method DecodeBinary(n: nat, ghost format: byte) returns (r: Result<Value<Slice>>)
      requires Valid() && ShapeOf(format).Counted? && ShapeOf(format).kind.Bin? && Holds(ShapeOf(format).field, n)
      modifies `pos
      ensures Valid()
      ensures Returned(data, old(pos), ParseCounted(ValueMode, data, old(pos), format, Kind.Bin, n, cfg, depth), r, pos)
      ensures r.Failure? ==> r.error != MaxDepthExceeded
    {
      var s :- TakeBinary(n);
      return Success(Value.Bin(s));
    }

    method DecodeExt(n: nat, ghost format: byte) returns (r: Result<Value<Slice>>)
      requires Valid() && ShapeOf(format).Counted? && ShapeOf(format).kind.Ext? && Holds(ShapeOf(format).field, n)
      modifies `pos
      ensures Valid()
      ensures Returned(data, old(pos), ParseCounted(ValueMode, data, old(pos), format, Kind.Ext, n, cfg, depth), r, pos)
      ensures r.Failure? ==> r.error != MaxDepthExceeded
    {
      PowValues();
      var _ :- ValidateLen(Kind.Ext, n);
      var t :- ReadByte();
      var s :- ReadBytes(n);
      assert data[old(pos)..old(pos) + 1 + n][1..] == data[old(pos) + 1..old(pos) + 1 + n];
      return Success(Value.Ext(Signed(1, t), s));
    }

    /** `decodeValue`. */
    method DecodeValue(format: byte) returns (r: Result<Value<Slice>>)
      requires Valid()
      modifies `pos, `depth, `slots
      ensures Valid()
      ensures Returned(data, old(pos), ParseBody(ValueMode, data, old(pos), format, cfg, old(depth)), r, pos)
      ensures DepthKept(old(depth), r, depth)
      ensures slots == old(slots) + SpentBody(data, old(pos), format, cfg, old(depth))
      decreases |data| - pos, 4
    {
      hide IsFixmap, IsFixarray, IsFixstr, IsPositiveFixint, Low4, Low5, ParseCounted;
      if IsPositiveFixint(format) { return Success(Uint(format)); }
      if IsNegativeFixint(format) { return Success(Int(format - 0x100)); }
      if IsFixmap(format) { r := DecodeMap(Low4(format), format); return; }
      if IsFixarray(format) { r := DecodeArray(Low4(format), format); return; }
      if IsFixstr(format) { r := DecodeString(Low5(format), format); return; }
      r := DecodeSwitch(format);
    }

    /** The switch of `decodeValue`, behind the tests for the fix forms. */
    method DecodeSwitch(format: byte) returns (r: Result<Value<Slice>>)
      requires Valid() && 0xc0 <= format < 0xe0
      modifies `pos, `depth, `slots
      ensures Valid()
      ensures Returned(data, old(pos), ParseBody(ValueMode, data, old(pos), format, cfg, old(depth)), r, pos)
      ensures DepthKept(old(depth), r, depth)
      ensures slots == old(slots) + SpentBody(data, old(pos), format, cfg, old(depth))
      decreases |data| - pos, 4, 2
    {
      match format {
        case 0xc0 => return Success(Nil);
        case 0xc2 => return Success(Bool(false));
        case 0xc3 => return Success(Bool(true));
        case 0xcc | 0xcd | 0xce | 0xcf => r := DecodeUintToValue(format);
        case 0xd0 | 0xd1 | 0xd2 | 0xd3 => r := DecodeIntToValue(format);
        case 0xca | 0xcb => r := DecodeFloatToValue(format);
        case 0xc1 => return Failure(InvalidFormat);
        case _ => r := DecodeSized(format);
      }
    }

    /** The cases of that switch that announce a length. */
    method DecodeSized(format: byte) returns (r: Result<Value<Slice>>)
      requires Valid() && ShapeOf(format).Counted? && 0xc0 <= format
      modifies `pos, `depth, `slots
      ensures Valid()
      ensures Returned(data, old(pos), ParseBody(ValueMode, data, old(pos), format, cfg, old(depth)), r, pos)
      ensures DepthKept(old(depth), r, depth)
      ensures slots == old(slots) + SpentBody(data, old(pos), format, cfg, old(depth))
      decreases |data| - pos, 4, 1
    {
      hide Denote, DenoteAll;
      match format {
        case 0xd9 | 0xda | 0xdb => r := DecodeStringVar(format);
        case 0xc4 | 0xc5 | 0xc6 => r := DecodeBinaryVar(format);
        case 0xdc | 0xdd => r := DecodeArrayVar(format);
        case 0xde | 0xdf => r := DecodeMapVar(format);
        case _ => r := DecodeExtSized(format);
      }
    }

    method DecodeExtSized(format: byte) returns (r: Result<Value<Slice>>)
      requires Valid() && ShapeOf(format).Counted? && ShapeOf(format).kind.Ext?
      modifies `pos
      ensures Valid()
      ensures Returned(data, old(pos), ParseBody(ValueMode, data, old(pos), format, cfg, depth), r, pos)
      ensures r.Failure? ==> r.error != MaxDepthExceeded
    {
      match format {
        case 0xd4 => r := DecodeExt(1, format);
        case 0xd5 => r := DecodeExt(2, format);
        case 0xd6 => r := DecodeExt(4, format);
        case 0xd7 => r := DecodeExt(8, format);
        case 0xd8 => r := DecodeExt(16, format);
        case 0xc7 | 0xc8 | 0xc9 => r := DecodeValueExtVar(format);
      }
    }

    // The cases of the switch that read a count first.

    method DecodeStringVar(format: byte) returns (r: Result<Value<Slice>>)
      requires Valid() && STR8 <= format <= STR32
      modifies `pos
      ensures Valid()
      ensures Returned(data, old(pos), ParseBody(ValueMode, data, old(pos), format, cfg, depth), r, pos)
      ensures r.Failure? ==> r.error != MaxDepthExceeded
    {
      var n :- ParseStringLen(format);
      r := DecodeString(n, format);
      BehindCount(format, old(pos), r, pos);
    }

    method DecodeBinaryVar(format: byte) returns (r: Result<Value<Slice>>)
      requires Valid() && BIN8 <= format <= BIN32
      modifies `pos
      ensures Valid()
      ensures Returned(data, old(pos), ParseBody(ValueMode, data, old(pos), format, cfg, depth), r, pos)
      ensures r.Failure? ==> r.error != MaxDepthExceeded
    {
      var n :- ParseBinaryLen(format);
      r := DecodeBinary(n, format);
      BehindCount(format, old(pos), r, pos);
    }

    method DecodeArrayVar(format: byte) returns (r: Result<Value<Slice>>)
      requires Valid() && ARRAY16 <= format <= ARRAY32
      modifies `pos, `depth, `slots
      ensures Valid()
      ensures Returned(data, old(pos), ParseBody(ValueMode, data, old(pos), format, cfg, old(depth)), r, pos)
      ensures DepthKept(old(depth), r, depth)
      ensures slots == old(slots) + SpentBody(data, old(pos), format, cfg, old(depth))
      decreases |data| - pos, 4, 0
    {
      var n :- ParseArrayLen(format);
      r := DecodeArray(n, format);
      BehindCount(format, old(pos), r, pos);
    }

    method DecodeMapVar(format: byte) returns (r: Result<Value<Slice>>)
      requires Valid() && MAP16 <= format <= MAP32
      modifies `pos, `depth, `slots
      ensures Valid()
      ensures Returned(data, old(pos), ParseBody(ValueMode, data, old(pos), format, cfg, old(depth)), r, pos)
      ensures DepthKept(old(depth), r, depth)
      ensures slots == old(slots) + SpentBody(data, old(pos), format, cfg, old(depth))
      decreases |data| - pos, 4, 0
    {
      var n :- ParseMapLen(format);
      r := DecodeMap(n, format);
      BehindCount(format, old(pos), r, pos);
    }

    static lemma BehindCount(format: byte, start: nat, r: Result<Value<Slice>>, pos: nat)
      requires ShapeOf(format).Counted?
      requires r.Success? ==> Ordered(Windows(r.value), start + Width(ShapeOf(format).field), pos)
      ensures r.Success? ==> Ordered(Windows(r.value), start, pos)
    {
      if r.Success? { OrderedFrom(Windows(r.value), start, start + Width(ShapeOf(format).field), pos); }
    }

    /** `decodeArray`. */
    method DecodeArray(n: nat, ghost format: byte) returns (r: Result<Value<Slice>>)
      requires Valid() && ShapeOf(format).Counted? && ShapeOf(format).kind.Arr? && Holds(ShapeOf(format).field, n)
      modifies `pos, `depth, `slots
      ensures Valid()
      ensures Returned(data, old(pos), ParseCounted(ValueMode, data, old(pos), format, Arr, n, cfg, old(depth)), r, pos)
      ensures DepthKept(old(depth), r, depth)
      ensures slots == old(slots) + SpentCounted(data, old(pos), Arr, n, cfg, old(depth))
      decreases |data| - pos, 3
    {
      var _ :- ValidateLen(Arr, n);
      var _ :- EnterContainer();
      var items := DecodeElements(n);
      LeaveContainer();  // the deferred call
      if items.Failure? { return Failure(items.error); }
      return Success(Array(items.value));
    }

    /** The loop of `decodeArray`, between entering and leaving the container. */
    method DecodeElements(n: nat) returns (r: Result<seq<Value<Slice>>>)
      requires Valid() && depth <= cfg.maxDepth && pos + n <= |data|
      modifies `pos, `depth, `slots
      ensures Valid()
      ensures ReturnedAll(data, old(pos), ParseAll(ValueMode, data, old(pos), n, false, cfg, old(depth)), r, pos)
      ensures r.Success? ==> |r.value| == n
      ensures DepthKept(old(depth), r, depth)
      ensures slots == old(slots) + n + SpentAll(data, old(pos), n, cfg, old(depth))
      decreases |data| - pos, 2
    {
      hide DenoteAll, Denote, Spent, Parse, ParseAll;
      slots := slots + n;  // make([]Value, length)
      var arr: seq<Value<Slice>> := [];
      ghost var ws: seq<Wire>, start, d := [], pos, depth;
      PrependNone(ParseAll(ValueMode, data, pos, n, false, cfg, d));
      for i := 0 to n
        invariant Valid() && depth == d && Pending(ValueMode, data, start, n, ws, pos, n - i, false, cfg, d)
        invariant |arr| == i && ItemsRead(data, start, pos, arr, ws)
        invariant slots + SpentAll(data, pos, n - i, cfg, d) == old(slots) + n + SpentAll(data, start, n, cfg, d)
      {
        ghost var p := pos;
        var v := Decode();
        StepItem(ValueMode, data, p, n - i, cfg, d, ws);
        SpentOne(data, p, n - i, cfg, d);
        if v.Failure? { return Failure(v.error); }
        ghost var w := Parse(ValueMode, data, p, cfg, d).value;
        ItemRead(data, arr, v.value, ws, w, start, p, pos);
        arr := arr + [v.value];
        ws := ws + [w];
      }
      PendingDone(ValueMode, data, start, n, ws, pos, false, cfg, d);
      return Success(arr);
    }

    /** `decodeMapKey`: a string, or any value at all whose content is then dropped. */
    method DecodeMapKey() returns (r: Result<Option<Slice>>)
      requires Valid()
      modifies `pos, `depth, `slots
      ensures Valid()
      ensures ReturnedKey(data, old(pos), Parse(ValueMode, data, old(pos), cfg, old(depth)), r, pos)
      ensures DepthKept(old(depth), r, depth)
      ensures slots == old(slots) + Spent(data, old(pos), cfg, old(depth))
      decreases |data| - pos, 1, 0
    {
      var keyFormat :- ReadByte();
      r := DecodeKeyBody(keyFormat);
      if r.Success? { OrderedFrom(if r.value.Some? then [r.value.value] else [], old(pos), old(pos) + 1, pos); }
    }

    method DecodeKeyBody(keyFormat: byte) returns (r: Result<Option<Slice>>)
      requires Valid()
      modifies `pos, `depth, `slots
      ensures Valid()
      ensures ReturnedKey(data, old(pos), ParseBody(ValueMode, data, old(pos), keyFormat, cfg, old(depth)), r, pos)
      ensures DepthKept(old(depth), r, depth)
      ensures slots == old(slots) + SpentBody(data, old(pos), keyFormat, cfg, old(depth))
      decreases |data| - pos, 5
    {
      hide ParseBody, ReturnedKey, CountFrom;
      var keyLen := ParseStringLen(keyFormat);
      if keyLen.Success? {
        var s := TakeString(keyLen.value);
        StringKey(data, old(pos), keyFormat, cfg, depth, s, pos);
        return s.Map(w => Some(w));
      }
      // Not a string, or its length is cut off; in the latter case the retry stops at the same place.
      var keyVal := DecodeValue(keyFormat);
      OtherKey(data, old(pos), ParseBody(ValueMode, data, old(pos), keyFormat, cfg, old(depth)), keyVal, pos);
      return keyVal.Map(StringOf);
    }

    /** `decodeMap`. */
    method DecodeMap(n: nat, ghost format: byte) returns (r: Result<Value<Slice>>)
      requires Valid() && ShapeOf(format).Counted? && ShapeOf(format).kind.Map? && Holds(ShapeOf(format).field, n)
      modifies `pos, `depth, `slots
      ensures Valid()
      ensures Returned(data, old(pos), ParseCounted(ValueMode, data, old(pos), format, Kind.Map, n, cfg, old(depth)),
                       r, pos)
      ensures DepthKept(old(depth), r, depth)
      ensures slots == old(slots) + SpentCounted(data, old(pos), Kind.Map, n, cfg, old(depth))
      decreases |data| - pos, 3
    {
      var _ :- ValidateLen(Kind.Map, n);
      var _ :- EnterContainer();
      var pairs := DecodePairs(n);
      LeaveContainer();  // the deferred call
      if pairs.Failure? { return Failure(pairs.error); }
      return Success(Value.Map(pairs.value));
    }

    /** One round of the loop of `decodeMap`. */
    method DecodePair() returns (r: Result<KV<Slice>>)
      requires Valid()
      modifies `pos, `depth, `slots
      ensures Valid()
      ensures ReturnedPair(data, old(pos), Parse(ValueMode, data, old(pos), cfg, old(depth)), cfg, old(depth), r, pos)
      ensures DepthKept(old(depth), r, depth)
      ensures slots == old(slots) + SpentAll(data, old(pos), 2, cfg, old(depth))
      decreases |data| - pos, 1, 1
    {
      SpentOne(data, pos, 2, cfg, depth);
      var key :- DecodeMapKey();
      SpentOne(data, pos, 1, cfg, depth);
      var val :- Decode();
      return Success(KV(key, val));
    }

    /** The loop of `decodeMap`, between entering and leaving the container. */
    method DecodePairs(n: nat) returns (r: Result<seq<KV<Slice>>>)
      requires Valid() && depth <= cfg.maxDepth && pos + 2 * n <= |data|
      modifies `pos, `depth, `slots
      ensures Valid()
      ensures ReturnedPairs(data, old(pos), ParseAll(ValueMode, data, old(pos), 2 * n, true, cfg, old(depth)), r, pos)
      ensures r.Success? ==> |r.value| == n
      ensures DepthKept(old(depth), r, depth)
      ensures slots == old(slots) + n + SpentAll(data, old(pos), 2 * n, cfg, old(depth))
      decreases |data| - pos, 2
    {
      hide PairShows, Resolve, Windows, Denote, DenotePairs, Parse, ParseAll;
      slots := slots + n;  // make([]KV, length)
      var kvs: seq<KV<Slice>> := [];
      ghost var ws: seq<Wire>, start, d := [], pos, depth;
      PrependNone(ParseAll(ValueMode, data, pos, 2 * n, true, cfg, d));
      for i := 0 to n
        invariant Valid() && depth == d && Pending(ValueMode, data, start, 2 * n, ws, pos, 2 * (n - i), true, cfg, d)
        invariant |kvs| == i && PairsRead(data, start, pos, kvs, ws)
        invariant slots + SpentAll(data, pos, 2 * (n - i), cfg, d) == old(slots) + n
                  + SpentAll(data, start, 2 * n, cfg, d)
      {
        ghost var p := pos;
        var kv := DecodePair();
        StepPair(data, p, n - i, cfg, d, ws);
        SpentTwo(data, p, 2 * (n - i), cfg, d);
        if kv.Failure? { return Failure(kv.error); }
        ghost var key := Parse(ValueMode, data, p, cfg, d);
        ghost var k, w := key.value, Parse(ValueMode, data, key.pos, cfg, d).value;
        PairRead(data, kvs, kv.value, ws, k, w, start, p, key.pos, pos);
        kvs := kvs + [kv.value];
        ws := ws + [k, w];
      }
      PendingDone(ValueMode, data, start, 2 * n, ws, pos, true, cfg, d);
      return Success(kvs);
    }
  }

  /** A string value's window; None for any other value. */
  function StringOf(v: Value<Slice>): Option<Slice> {
    if v.Str? then Some(v.str) else None
  }

  /** A string key taken at the length its format announces is the key the parser reads. */
  lemma StringKey(data: bytes, start: nat, format: byte, cfg: Config, depth: int, r: Result<Slice>, pos: nat)
    requires IsStr(format) && start + Width(ShapeOf(format).field) <= |data|
    requires var p := start + Width(ShapeOf(format).field);
      Took(data, p, CountFrom(ShapeOf(format).field, data[start..p]), cfg, r, pos)
    ensures ReturnedKey(data, start, ParseBody(ValueMode, data, start, format, cfg, depth), r.Map(s => Some(s)), pos)
  {
    ParseBlob(data, start, format, cfg, depth);
    SoundBody(ValueMode, data, start, format, cfg, depth);
  }

  /** Any other key is read as a value, of which only a string is kept. */
  lemma OtherKey(data: bytes, start: nat, parsed: Res<Wire>, r: Result<Value<Slice>>, pos: nat)
    requires Returned(data, start, parsed, r, pos)
    ensures ReturnedKey(data, start, parsed, r.Map(StringOf), pos)
  {
    if r.Success? { OrderedPairwise(Windows(r.value), start, pos); }
  }

  lemma StepItem(m: Mode, data: bytes, pos: nat, n: nat, cfg: Config, depth: int, ws: seq<Wire>)
    requires pos <= |data| && n > 0
    ensures Prepend(ws, ParseAll(m, data, pos, n, false, cfg, depth))
         == match Parse(m, data, pos, cfg, depth) {
              case Fail(e, p) => Fail(e, p)
              case Ok(w, p) => Prepend(ws + [w], ParseAll(m, data, p, n - 1, false, cfg, depth))
            }
  {
    Step(m, data, pos, n, false, cfg, depth, ws);
    ItemIsParse(m, data, pos, false, cfg, depth);
  }

  lemma StepTwo(m: Mode, data: bytes, pos: nat, n: nat, cfg: Config, depth: int, ws: seq<Wire>)
    requires pos <= |data| && n > 0
    ensures Prepend(ws, ParseAll(m, data, pos, 2 * n, true, cfg, depth))
         == match ParseItem(m, data, pos, true, cfg, depth) {
              case Fail(e, p) => Fail(e, p)
              case Ok(k, q) =>
                match Parse(m, data, q, cfg, depth) {
                  case Fail(e, p) => Fail(e, p)
                  case Ok(w, p) => Prepend(ws + [k, w], ParseAll(m, data, p, 2 * (n - 1), true, cfg, depth))
                }
            }
  {
    hide Parse, ParseAll, ParseItem;
    Step(m, data, pos, 2 * n, true, cfg, depth, ws);
    var key := ParseItem(m, data, pos, true, cfg, depth);
    if key.Ok? {
      Step(m, data, key.pos, 2 * n - 1, true, cfg, depth, ws + [key.value]);
      ItemIsParse(m, data, key.pos, false, cfg, depth);
      var val := Parse(m, data, key.pos, cfg, depth);
      if val.Ok? { assert ws + [key.value] + [val.value] == ws + [key.value, val.value]; }
    }
  }

  lemma StepPair(data: bytes, pos: nat, n: nat, cfg: Config, depth: int, ws: seq<Wire>)
    requires pos <= |data| && n > 0
    ensures Prepend(ws, ParseAll(ValueMode, data, pos, 2 * n, true, cfg, depth))
         == match Parse(ValueMode, data, pos, cfg, depth) {
              case Fail(e, p) => Fail(e, p)
              case Ok(k, q) =>
                match Parse(ValueMode, data, q, cfg, depth) {
                  case Fail(e, p) => Fail(e, p)
                  case Ok(w, p) => Prepend(ws + [k, w], ParseAll(ValueMode, data, p, 2 * (n - 1), true, cfg, depth))
                }
            }
  {
    StepTwo(ValueMode, data, pos, n, cfg, depth, ws);
    ItemIsParse(ValueMode, data, pos, true, cfg, depth);
  }

  /** One more item, read between p and end, extends the items read since start. */
  lemma ItemRead(data: bytes, vs: seq<Value<Slice>>, v: Value<Slice>, ws: seq<Wire>, w: Wire, start: nat, p: nat,
                 end: nat)
    requires ItemsRead(data, start, p, vs, ws)
    requires Legal(w) && Resolve(data, v) == Denote(w) && Ordered(Windows(v), p, end)
    ensures ItemsRead(data, start, end, vs + [v], ws + [w])
  {
    DenoteAppend(ws, w);
    ResolveAppend(data, vs, v);
    WindowsAppend(vs, v);
    OrderedConcat(WindowsAll(vs), Windows(v), start, p, end);
  }

  /** One more pair, read between p and end, extends the pairs read since start. */
  lemma PairRead(data: bytes, kvs: seq<KV<Slice>>, kv: KV<Slice>, ws: seq<Wire>, k: Wire, w: Wire,
                 start: nat, p: nat, q: nat, end: nat)
    requires PairsRead(data, start, p, kvs, ws) && PairShows(data, p, q, end, k, w, kv)
    ensures PairsRead(data, start, end, kvs + [kv], ws + [k, w])
  {
    DenotePairAppend(ws, k, w);
    ResolvePairAppend(data, kvs, kv);
    WindowsPairAppend(kvs, kv);
    OrderedConcat(if kv.key.Some? then [kv.key.value] else [], Windows(kv.value), p, q, end);
    OrderedConcat(WindowsPairs(kvs), WindowsPair(kv), start, p, end);
  }
}
