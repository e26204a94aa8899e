/** The cached struct decoder against the reflective one: what both read, and exactly when they agree. */
module StructRefinement {
  import opened Bytes
  import opened Format
  import opened Wire
  import opened Values
  import opened Grammar
  import opened Encoding
  import opened Fields
  import opened StructDecoding

  // ---- one value ----

  /**
   The reflective decoder takes the value too: string formats of a []byte field are held to the string limit there.
   */
  predicate TakesText(v: FieldVal, text: bool, cfg: Config) {
    v.VBytes? && text ==> |v.bin| <= cfg.maxStr
  }

  lemma ScalarRefines(k: FieldKind, data: bytes, pos: nat, f: byte, cfg: Config)
    requires pos <= |data| && IsScalar(k) && ScalarAt(Cached, k, data, pos, f, cfg).Ok?
    ensures ScalarAt(Reflective, k, data, pos, f, cfg).Ok? <==>
            TakesText(ScalarAt(Cached, k, data, pos, f, cfg).value, IsStr(f), cfg)
    ensures ScalarAt(Reflective, k, data, pos, f, cfg).Ok?
        ==> ScalarAt(Reflective, k, data, pos, f, cfg) == ScalarAt(Cached, k, data, pos, f, cfg)
    ensures ScalarAt(Cached, k, data, pos, f, cfg).value.VBytes? <==> k.FBytes?
    ensures !ScalarAt(Cached, k, data, pos, f, cfg).value.VList?
  {
    if k.FBytes? {
      ScalarBlob(Cached, k, data, pos, f, cfg);
      ScalarBlob(Reflective, k, data, pos, f, cfg);
    }
  }

  lemma {:induction false} ElemsRefine(k: FieldKind, data: bytes, pos: nat, n: nat, cfg: Config, xs: seq<FieldVal>)
    requires pos <= |data| && IsScalar(k) && !k.FBytes?
    requires ElemsAt(Cached, k, data, pos, n, cfg, xs).Ok?
    ensures ElemsAt(Reflective, k, data, pos, n, cfg, xs) == ElemsAt(Cached, k, data, pos, n, cfg, xs)
    decreases n
  {
    if n > 0 {
      var e := ElemAt(Cached, k, data, pos, cfg);
      ScalarRefines(k, data, pos + 1, data[pos], cfg);
      ElemsRefine(k, data, e.pos, n - 1, cfg, xs + [e.value]);
    }
  }

  /** A field value that is not nil: the reflective decoder reads it alike, given room for a slice and for a string. */
  lemma {:induction false} ValueRefines(k: FieldKind, data: bytes, pos: nat, f: byte, cfg: Config, depth: int)
    requires pos <= |data| && Flat(k) && ValueAt(Cached, k, data, pos, f, cfg, depth).Ok?
    ensures var cached := ValueAt(Cached, k, data, pos, f, cfg, depth);
      var reflective := ValueAt(Reflective, k, data, pos, f, cfg, depth + 1);
      && (reflective.Ok? <==>
          TakesText(cached.value, IsStr(f), cfg) && (cached.value.VList? ==> depth + 2 <= cfg.maxDepth))
      && (reflective.Ok? ==> reflective == cached)
  {
    if k.FSlice? {
      var count := CountAt(Arr, data, pos, f, cfg);
      ElemsRefine(k.elem, data, count.pos, count.value, cfg, []);
    } else {
      ScalarRefines(k, data, pos, f, cfg);
    }
  }

  // ---- one pair ----

  /**
   What one pair of the map holds: a key no field has, or a field with its value; None is nil, `text` a string format.
   */
  datatype Entry = Unknown(nest: nat) | Known(field: nat, value: Option<FieldVal>, text: bool)

  ghost function KnownAt(j: nat, k: FieldKind, data: bytes, pos: nat, cfg: Config, depth: int): (r: Res<Entry>)
    requires pos <= |data| && Flat(k)
    ensures pos <= r.pos <= |data|
  {
    if pos == |data| then Fail(UnexpectedEOF, pos)
    else if data[pos] == NIL then Ok(Known(j, None, false), pos + 1)
    else match ValueAt(Cached, k, data, pos + 1, data[pos], cfg, depth)
      case Fail(e, p) => Fail(e, p)
      case Ok(v, p) => Ok(Known(j, Some(v), IsStr(data[pos])), p)
  }

  /** One pair as the cached decoder goes through it. */
  ghost function EntryAt(fields: seq<Field>, data: bytes, pos: nat, cfg: Config, depth: int): (r: Res<Entry>)
    requires pos <= |data| && forall i :: 0 <= i < |fields| ==> Flat(fields[i].kind)
    ensures r.pos <= |data|
  {
    match ParseItem(TypedMode, data, pos, true, cfg, depth)
    case Fail(e, p) => Fail(e, p)
    case Ok(key, q) =>
      var j := Find(fields, KeyBytes(KeyOf(key)));
      if j >= 0 then KnownAt(j, fields[j].kind, data, q, cfg, depth)
      else match Parse(ValueMode, data, q, cfg, depth)
        case Fail(e, p) => Fail(e, p)
        case Ok(w, p) => Ok(Unknown(Nest(w)), p)
  }

  ghost function Entries(fields: seq<Field>, data: bytes, pos: nat, n: nat, cfg: Config, depth: int): seq<Entry>
    requires pos <= |data| && forall i :: 0 <= i < |fields| ==> Flat(fields[i].kind)
    decreases n
  {
    if n == 0 then [] else
    match EntryAt(fields, data, pos, cfg, depth)
    case Fail(_, _) => []
    case Ok(e, p) => [e] + Entries(fields, data, p, n - 1, cfg, depth)
  }

  /** The destination after one pair: nil leaves a field alone (cached) or clears it (reflective). */
  function Apply(c: Codec, fields: seq<Field>, e: Entry, dst: seq<FieldVal>): (s: seq<FieldVal>)
    requires |dst| == |fields|
    ensures |s| == |dst|
  {
    if e.Unknown? || e.field >= |dst| then dst
    else if e.value.Some? then dst[e.field := e.value.value]
    else if c.Cached? then dst
    else dst[e.field := Zero(fields[e.field].kind)]
  }

  function ApplyAll(c: Codec, fields: seq<Field>, es: seq<Entry>, dst: seq<FieldVal>): (s: seq<FieldVal>)
    requires |dst| == |fields|
    ensures |s| == |dst|
  {
    if es == [] then dst else ApplyAll(c, fields, es[1..], Apply(c, fields, es[0], dst))
  }

  /** The limits of the reflective decoder, whose struct is a container of its own, leave room for the pair. */
  ghost predicate Taken(e: Entry, cfg: Config, depth: int) {
    match e
    case Unknown(nest) => DepthRoom(nest, cfg, depth + 1)
    case Known(_, value, text) =>
      value.Some? ==> TakesText(value.value, text, cfg) && (value.value.VList? ==> depth + 2 <= cfg.maxDepth)
  }

  lemma {:induction false} SkipRefines(dst: seq<FieldVal>, data: bytes, pos: nat, cfg: Config, depth: int)
    requires pos <= |data| && Parse(ValueMode, data, pos, cfg, depth).Ok?
    ensures var w := Parse(ValueMode, data, pos, cfg, depth).value;
      && (SkipAt(dst, data, pos, cfg, depth + 1).SOk? <==> DepthRoom(Nest(w), cfg, depth + 1))
      && (SkipAt(dst, data, pos, cfg, depth + 1).SOk? ==>
          SkipAt(dst, data, pos, cfg, depth + 1) == SkipAt(dst, data, pos, cfg, depth))
  {
    var here, below := Parse(ValueMode, data, pos, cfg, depth), Parse(ValueMode, data, pos, cfg, depth + 1);
    ParseDepth(ValueMode, data, pos, cfg, depth, depth + 1, here.value, here.pos);
    if below.Ok? {
      ParseDepth(ValueMode, data, pos, cfg, depth + 1, depth, below.value, below.pos);
    }
  }

  /** A key is read alike at every depth. */
  lemma SameKey(data: bytes, pos: nat, cfg: Config, depth: int)
    requires pos <= |data| && ParseItem(TypedMode, data, pos, true, cfg, depth).Ok?
    ensures pos < |data| && IsStr(data[pos])
    ensures ParseItem(TypedMode, data, pos, true, cfg, depth + 1) == ParseItem(TypedMode, data, pos, true, cfg, depth)
  {
    Unfold(TypedMode, data, pos, true, cfg, depth);
    Unfold(TypedMode, data, pos, true, cfg, depth + 1);
    LeafAnyDepth(TypedMode, data, pos + 1, data[pos], cfg, depth, depth + 1);
  }

  lemma CachedStep(fields: seq<Field>, dst: seq<FieldVal>, data: bytes, pos: nat, cfg: Config, depth: int)
    requires pos <= |data| && Shaped(fields, dst)
    ensures PairAt(Cached, fields, dst, data, pos, cfg, depth)
         == match EntryAt(fields, data, pos, cfg, depth) {
              case Fail(e, p) => SFail(e, p, dst)
              case Ok(e, p) => SOk(Apply(Cached, fields, e, dst), p)
            }
  {
  }

  lemma {:induction false} ReflectiveStep(fields: seq<Field>, dst: seq<FieldVal>, data: bytes, pos: nat, cfg: Config,
                                          depth: int)
    requires pos <= |data| && Shaped(fields, dst) && EntryAt(fields, data, pos, cfg, depth).Ok?
    ensures var entry := EntryAt(fields, data, pos, cfg, depth);
      var r := PairAt(Reflective, fields, dst, data, pos, cfg, depth + 1);
      && (r.SOk? <==> Taken(entry.value, cfg, depth))
      && (r.SOk? ==> r == SOk(Apply(Reflective, fields, entry.value, dst), entry.pos))
  {
    var item := ParseItem(TypedMode, data, pos, true, cfg, depth);
    SameKey(data, pos, cfg, depth);
    var j := Find(fields, KeyBytes(KeyOf(item.value)));
    if j < 0 {
      SkipRefines(dst, data, item.pos, cfg, depth);
    } else if data[item.pos] != NIL {
      ValueRefines(fields[j].kind, data, item.pos + 1, data[item.pos], cfg, depth);
    }
  }

  /** The pair loops: the entries decide both destinations, and whether the reflective decoder gets through. */
  lemma {:induction false} PairsRefine(fields: seq<Field>, dst: seq<FieldVal>, dst': seq<FieldVal>, data: bytes,
                                       pos: nat, n: nat, cfg: Config, depth: int)
    requires pos <= |data| && Shaped(fields, dst) && Shaped(fields, dst')
    requires PairsAt(Cached, fields, dst, data, pos, n, cfg, depth).SOk?
    ensures var es := Entries(fields, data, pos, n, cfg, depth);
            var cached := PairsAt(Cached, fields, dst, data, pos, n, cfg, depth);
            var reflective := PairsAt(Reflective, fields, dst', data, pos, n, cfg, depth + 1);
      && cached.dst == ApplyAll(Cached, fields, es, dst)
      && (reflective.SOk? <==> AllTaken(es, cfg, depth))
      && (reflective.SOk? ==> reflective == SOk(ApplyAll(Reflective, fields, es, dst'), cached.pos))
    decreases n
  {
    hide PairAt, EntryAt, Apply, Taken;
    if n > 0 {
      CachedStep(fields, dst, data, pos, cfg, depth);
      ReflectiveStep(fields, dst', data, pos, cfg, depth);
      var entry := EntryAt(fields, data, pos, cfg, depth);
      var e, rest := entry.value, Entries(fields, data, entry.pos, n - 1, cfg, depth);
      assert ([e] + rest)[1..] == rest;
      if Taken(e, cfg, depth) {
        PairsRefine(fields, Apply(Cached, fields, e, dst), Apply(Reflective, fields, e, dst'), data, entry.pos, n - 1,
                    cfg, depth);
      } else {
        PairsRefine(fields, Apply(Cached, fields, e, dst), dst', data, entry.pos, n - 1, cfg, depth);
      }
    }
  }

  /**
   The cached loop, completely: the destination holds exactly what the pairs before the first failing one make of
   it, and the failure is that pair's.
   */
  lemma {:induction false} CachedExactly(fields: seq<Field>, dst: seq<FieldVal>, data: bytes, pos: nat, n: nat,
                                         cfg: Config, depth: int)
    requires pos <= |data| && Shaped(fields, dst)
    ensures var es := Entries(fields, data, pos, n, cfg, depth);
      var r, q := PairsAt(Cached, fields, dst, data, pos, n, cfg, depth), Behind(fields, data, pos, |es|, cfg, depth);
      && r.dst == ApplyAll(Cached, fields, es, dst) && (r.SOk? <==> |es| == n)
      && (r.SFail? ==> EntryAt(fields, data, q, cfg, depth) == Fail(r.err, r.pos))
    decreases n
  {
    hide EntryAt, PairAt, Apply;
    if n > 0 {
      CachedStep(fields, dst, data, pos, cfg, depth);
      var entry := EntryAt(fields, data, pos, cfg, depth);
      if entry.Ok? {
        var rest := Entries(fields, data, entry.pos, n - 1, cfg, depth);
        assert ([entry.value] + rest)[1..] == rest;
        CachedExactly(fields, Apply(Cached, fields, entry.value, dst), data, entry.pos, n - 1, cfg, depth);
      }
    }
  }

  /** Where the pair behind the first n begins. */
  ghost function Behind(fields: seq<Field>, data: bytes, pos: nat, n: nat, cfg: Config, depth: int): (p: nat)
    requires pos <= |data| && forall i :: 0 <= i < |fields| ==> Flat(fields[i].kind)
    ensures p <= |data|
    decreases n
  {
    var entry := EntryAt(fields, data, pos, cfg, depth);
    if n == 0 || entry.Fail? then pos else Behind(fields, data, entry.pos, n - 1, cfg, depth)
  }

  ghost predicate AllTaken(es: seq<Entry>, cfg: Config, depth: int) {
    es == [] || (Taken(es[0], cfg, depth) && AllTaken(es[1..], cfg, depth))
  }

  // ---- the final destinations ----

  predicate IsValue(e: Entry, j: nat) { e.Known? && e.field == j && e.value.Some? }

  predicate IsNil(e: Entry, j: nat) { e.Known? && e.field == j && e.value.None? }

  /** The last pair that gives field j a value, or -1. */
  function LastValue(es: seq<Entry>, j: nat): (i: int)
    ensures -1 <= i < |es|
    ensures i >= 0 ==> IsValue(es[i], j)
    ensures forall k :: i < k < |es| ==> !IsValue(es[k], j)
  {
    if es == [] then -1
    else if IsValue(es[|es| - 1], j) then |es| - 1
    else LastValue(es[..|es| - 1], j)
  }

  /** What the cached decoder leaves in field j: its last value, or what was there before. */
  function Kept(es: seq<Entry>, j: nat, dst: seq<FieldVal>): FieldVal
    requires j < |dst|
  {
    var i := LastValue(es, j);
    if i >= 0 then es[i].value.value else dst[j]
  }

  /** A nil for field j stands behind its last value. */
  predicate NilLast(es: seq<Entry>, j: nat) {
    exists k :: LastValue(es, j) < k < |es| && IsNil(es[k], j)
  }

  /** Field j holds something to lose when a nil comes last. */
  predicate Cleared(fields: seq<Field>, es: seq<Entry>, j: nat, dst: seq<FieldVal>)
    requires j < |fields| == |dst|
  {
    NilLast(es, j) && Kept(es, j, dst) != Zero(fields[j].kind)
  }

  lemma {:induction false} ApplyAppend(c: Codec, fields: seq<Field>, es: seq<Entry>, e: Entry, dst: seq<FieldVal>)
    requires |dst| == |fields|
    ensures ApplyAll(c, fields, es + [e], dst) == Apply(c, fields, e, ApplyAll(c, fields, es, dst))
    decreases |es|
  {
    if es == [] {
      assert (es + [e])[1..] == [];
    } else {
      assert (es + [e])[1..] == es[1..] + [e];
      ApplyAppend(c, fields, es[1..], e, Apply(c, fields, es[0], dst));
    }
  }

  lemma {:induction false} FinalValue(fields: seq<Field>, es: seq<Entry>, j: nat, dst: seq<FieldVal>)
    requires j < |fields| == |dst|
    ensures ApplyAll(Cached, fields, es, dst)[j] == Kept(es, j, dst)
    ensures ApplyAll(Reflective, fields, es, dst)[j] == if NilLast(es, j) then Zero(fields[j].kind)
            else Kept(es, j, dst)
    decreases |es|
  {
    if es != [] {
      var before, e := es[..|es| - 1], es[|es| - 1];
      assert es == before + [e];
      FinalValue(fields, before, j, dst);
      ApplyAppend(Cached, fields, before, e, dst);
      ApplyAppend(Reflective, fields, before, e, dst);
      LastStep(es, j);
    }
  }

  /** One more pair: a value or a nil for field j becomes its last, any other pair changes nothing. */
  lemma {:induction false} LastStep(es: seq<Entry>, j: nat)
    requires es != []
    ensures var before, e := es[..|es| - 1], es[|es| - 1];
      && LastValue(es, j) == (if IsValue(e, j) then |es| - 1 else LastValue(before, j))
      && (NilLast(es, j) <==> IsNil(e, j) || (!IsValue(e, j) && NilLast(before, j)))
  {
    var before, e := es[..|es| - 1], es[|es| - 1];
    if NilLast(before, j) && !IsValue(e, j) {
      var k :| LastValue(before, j) < k < |before| && IsNil(before[k], j);
      assert IsNil(es[k], j);
    }
    if NilLast(es, j) && !IsNil(e, j) {
      var k :| LastValue(es, j) < k < |es| && IsNil(es[k], j);
      assert IsNil(before[k], j);
    }
  }

  // ---- whole structs ----

  function Zeros(fields: seq<Field>): (dst: seq<FieldVal>)
    ensures |dst| == |fields|
  {
    seq(|fields|, i requires 0 <= i < |fields| => Zero(fields[i].kind))
  }

  /** The pairs of the struct at pos; none for nil. */
  ghost function EntriesOf(fields: seq<Field>, data: bytes, pos: nat, cfg: Config, depth: int): seq<Entry>
    requires pos < |data| && forall i :: 0 <= i < |fields| ==> Flat(fields[i].kind)
  {
    if data[pos] == NIL then [] else
    match CountAt(Kind.Map, data, pos + 1, data[pos], cfg)
    case Fail(_, _) => []
    case Ok(n, p) => Entries(fields, data, p, n, cfg, depth)
  }

  lemma {:induction false} OpenStruct(c: Codec, fields: seq<Field>, dst: seq<FieldVal>, data: bytes, pos: nat,
                                      cfg: Config, depth: int)
    requires pos < |data| && Shaped(fields, dst) && data[pos] != NIL
    ensures var count := CountAt(Kind.Map, data, pos + 1, data[pos], cfg);
      StructAt(c, fields, dst, data, pos, cfg, depth)
        == if count.Fail? then SFail(count.err, count.pos, dst)
           else if c.Reflective? && depth + 1 > cfg.maxDepth then SFail(MaxDepthExceeded, count.pos, dst)
           else PairsAt(c, fields, dst, data, count.pos, count.value, cfg, Inner(c, depth))
  {
  }

  /**
   Whatever `decodeInto` reads into a destination, `DecodeStruct` reads to the same place exactly when its
   limits leave room for the struct and for each pair; a field then differs exactly when it is cleared by
   a nil behind its last value; so the two agree exactly when there is room and nothing is cleared.
   */
  lemma {:induction false} CachedRefinesReflective(fields: seq<Field>, dst: seq<FieldVal>, data: bytes, pos: nat,
                                                   cfg: Config, depth: int)
    requires pos <= |data| && Shaped(fields, dst) && StructAt(Cached, fields, dst, data, pos, cfg, depth).SOk?
    ensures var es := EntriesOf(fields, data, pos, cfg, depth);
            var cached := StructAt(Cached, fields, dst, data, pos, cfg, depth);
            var reflective := StructAt(Reflective, fields, dst, data, pos, cfg, depth);
            var room := data[pos] == NIL || (depth + 1 <= cfg.maxDepth && AllTaken(es, cfg, depth));
      && (reflective.SOk? <==> room)
      && (reflective.SOk? ==> reflective.pos == cached.pos)
      && (reflective.SOk? ==> forall j :: 0 <= j < |fields| ==>
          (reflective.dst[j] != cached.dst[j] <==> Cleared(fields, es, j, dst)))
      && (reflective == cached <==> room && forall j :: 0 <= j < |fields| ==> !Cleared(fields, es, j, dst))
  {
    var es := EntriesOf(fields, data, pos, cfg, depth);
    var cached := StructAt(Cached, fields, dst, data, pos, cfg, depth);
    var reflective := StructAt(Reflective, fields, dst, data, pos, cfg, depth);
    BothRead(fields, dst, data, pos, cfg, depth);
    if reflective.SOk? {
      forall j | 0 <= j < |fields| ensures reflective.dst[j] != cached.dst[j] <==> Cleared(fields, es, j, dst) {
        FinalValue(fields, es, j, dst);
      }
      if forall j :: 0 <= j < |fields| ==> !Cleared(fields, es, j, dst) {
        assert reflective.dst == cached.dst;
      }
    }
  }

  lemma {:induction false} BothRead(fields: seq<Field>, dst: seq<FieldVal>, data: bytes, pos: nat, cfg: Config,
                                    depth: int)
    requires pos <= |data| && Shaped(fields, dst) && StructAt(Cached, fields, dst, data, pos, cfg, depth).SOk?
    ensures var es := EntriesOf(fields, data, pos, cfg, depth);
            var cached := StructAt(Cached, fields, dst, data, pos, cfg, depth);
            var reflective := StructAt(Reflective, fields, dst, data, pos, cfg, depth);
      && cached.dst == ApplyAll(Cached, fields, es, dst)
      && (reflective.SOk? <==> data[pos] == NIL || (depth + 1 <= cfg.maxDepth && AllTaken(es, cfg, depth)))
      && (reflective.SOk? ==> reflective == SOk(ApplyAll(Reflective, fields, es, dst), cached.pos))
  {
    if data[pos] != NIL {
      hide PairAt, EntryAt, Entries, StructAt;
      var count := CountAt(Kind.Map, data, pos + 1, data[pos], cfg);
      OpenStruct(Cached, fields, dst, data, pos, cfg, depth);
      OpenStruct(Reflective, fields, dst, data, pos, cfg, depth);
      PairsRefine(fields, dst, dst, data, count.pos, count.value, cfg, depth);
    }
  }

  /** No field key occurs twice. */
  predicate NoRepeats(es: seq<Entry>) {
    forall i, j :: 0 <= i < j < |es| && es[i].Known? && es[j].Known? ==> es[i].field != es[j].field
  }

  /** Into a zero destination nothing is cleared unless a field key is repeated. */
  lemma ClearedNeedsRepeat(fields: seq<Field>, es: seq<Entry>, j: nat)
    requires j < |fields| && Cleared(fields, es, j, Zeros(fields))
    ensures !NoRepeats(es)
  {
    var i := LastValue(es, j);
    var k :| i < k < |es| && IsNil(es[k], j);
    assert i >= 0 && es[i].field == es[k].field;
  }

  // ---- a repeated key ----

  /** One integer field named "a", and the map {"a": 1, "a": nil}. */
  const ONE_FIELD: seq<Field> := [Field([0x61], FInt(64), false)]
  const TWICE: bytes := [0x82, 0xa1, 0x61, 0x01, 0xa1, 0x61, 0xc0]

  /** The key "a" as both struct decoders read it. */
  lemma KeyA(c: Codec, dst: seq<FieldVal>, pos: nat, cfg: Config, depth: int)
    requires (pos == 1 || pos == 4) && cfg.maxStr >= 1 && |dst| == 1
    ensures PairAt(c, ONE_FIELD, dst, TWICE, pos, cfg, depth)
         == match FieldAt(c, FInt(64), dst[0], TWICE, pos + 2, cfg, depth) {
              case Fail(e, p) => SFail(e, p, dst)
              case Ok(v, p) => SOk([v], p)
            }
  {
    var key := Leaf(0xa1, [0x61]);
    assert TWICE[pos + 1..pos + 2] == [0x61];
    assert ParseItem(TypedMode, TWICE, pos, true, cfg, depth) == Ok(key, pos + 2);
    assert KeyOf(key) == Some([0x61]) && Find(ONE_FIELD, [0x61]) == 0;
  }

  /**
   A key that comes twice, the second time with nil: the cached decoder keeps the value, the reflective one clears it.
   */
  lemma RepeatedNil(cfg: Config)
    requires cfg.maxStr >= 1 && cfg.maxMap >= 2 && cfg.maxDepth >= 1
    ensures StructAt(Cached, ONE_FIELD, [VInt(0)], TWICE, 0, cfg, 0) == SOk([VInt(1)], 7)
    ensures StructAt(Reflective, ONE_FIELD, [VInt(0)], TWICE, 0, cfg, 0) == SOk([VInt(0)], 7)
  {
    hide PairAt;
    forall c: Codec
      ensures StructAt(c, ONE_FIELD, [VInt(0)], TWICE, 0, cfg, 0) == SOk([VInt(if c.Cached? then 1 else 0)], 7)
    {
      OpenStruct(c, ONE_FIELD, [VInt(0)], TWICE, 0, cfg, 0);
      KeyA(c, [VInt(0)], 1, cfg, Inner(c, 0));
      KeyA(c, [VInt(1)], 4, cfg, Inner(c, 0));
      assert CountAt(Kind.Map, TWICE, 1, 0x82, cfg) == Ok(2, 1);
      assert FieldAt(c, FInt(64), VInt(0), TWICE, 3, cfg, Inner(c, 0)) == Ok(VInt(1), 4);
      assert PairsAt(c, ONE_FIELD, [VInt(1)], TWICE, 4, 1, cfg, Inner(c, 0))
          == SOk([VInt(if c.Cached? then 1 else 0)], 7);
    }
  }
}
