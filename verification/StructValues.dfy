/** The struct decoder against the general one: the fields hold what `Decode` reads from the same bytes, converted. */
module StructValues {
  import opened Bytes
  import opened Format
  import opened Wire
  import opened Values
  import opened Grammar
  import opened Encoding
  import opened Canonical
  import opened Fields
  import opened StructDecoding
  import opened StructRefinement
  import opened Reference
  import opened FieldReference

  /** x is v as a field: a scalar converted, or a slice of an array's items converted one by one. */
  predicate FieldConverts(k: FieldKind, v: Value<bytes>, x: FieldVal)
    requires Flat(k)
  {
    if k.FSlice? then
      && v.Array? && x.VList? && |v.items| == |x.items|
      && forall i :: 0 <= i < |x.items| ==> Converts(k.elem, v.items[i], x.items[i])
    else Converts(k, v, x)
  }

  /** What the struct decoder noted of a pair is what `Decode` reads there. */
  ghost predicate Matches(fields: seq<Field>, e: Entry, kv: KV<bytes>)
    requires forall i :: 0 <= i < |fields| ==> Flat(fields[i].kind)
  {
    && kv.key.Some?
    && var j := Find(fields, kv.key.value);
       if j < 0 then e.Unknown?
       else
         && e.Known? && e.field == j
         && if e.value.None? then kv.value == Nil
            else kv.value != Nil && FieldConverts(fields[j].kind, kv.value, e.value.value)
  }

  // ---- one value ----

  lemma {:induction false} ItemConverts(k: FieldKind, data: bytes, pos: nat, cfg: Config, depth: int)
    requires pos <= |data| && (k.FString? || k == FInt(64)) && ElemAt(Cached, k, data, pos, cfg).Ok?
    ensures var e, r := ElemAt(Cached, k, data, pos, cfg), Read(ValueMode, data, pos, cfg, depth);
      r.Ok? && r.pos == e.pos && Converts(k, r.value, e.value)
  {
    hide Read, Converts, ScalarAt;
    ScalarConverts(Cached, k, data, pos, cfg, depth);
  }

  lemma {:induction false} ItemsConvert(k: FieldKind, data: bytes, pos: nat, n: nat, cfg: Config, depth: int,
                                        xs: seq<FieldVal>)
    requires pos <= |data| && (k.FString? || k == FInt(64)) && ElemsAt(Cached, k, data, pos, n, cfg, xs).Ok?
    ensures var es, r := ElemsAt(Cached, k, data, pos, n, cfg, xs), ReadItems(ValueMode, data, pos, n, cfg, depth);
      && r.Ok? && r.pos == es.pos && |r.value| == n && |es.value| == |xs| + n && es.value[..|xs|] == xs
      && forall i :: 0 <= i < n ==> Converts(k, r.value[i], es.value[|xs| + i])
    decreases n
  {
    hide ElemAt, Read, Converts;
    if n > 0 {
      ItemConverts(k, data, pos, cfg, depth);
      var e := ElemAt(Cached, k, data, pos, cfg);
      ItemsConvert(k, data, e.pos, n - 1, cfg, depth, xs + [e.value]);
      var es := ElemsAt(Cached, k, data, pos, n, cfg, xs).value;
      var vs := ReadItems(ValueMode, data, pos, n, cfg, depth).value;
      var rest := ReadItems(ValueMode, data, e.pos, n - 1, cfg, depth).value;
      assert es[..|xs|] == es[..|xs| + 1][..|xs|] && es[|xs|] == es[..|xs| + 1][|xs|];
      assert forall i :: 1 <= i < n ==> vs[i] == rest[i - 1] && es[|xs| + i] == es[|xs| + 1 + (i - 1)];
    }
  }

  /** An array whose count is known: its items follow, one level down. */
  lemma {:induction false} ArrayRead(data: bytes, pos: nat, cfg: Config, depth: int)
    requires pos < |data| && CountAt(Arr, data, pos + 1, data[pos], cfg).Ok?
    ensures var count := CountAt(Arr, data, pos + 1, data[pos], cfg);
      Read(ValueMode, data, pos, cfg, depth)
        == if depth + 1 > cfg.maxDepth then Fail(MaxDepthExceeded, count.pos)
           else match ReadItems(ValueMode, data, count.pos, count.value, cfg, depth + 1) {
             case Fail(e, p) => Fail(e, p)
             case Ok(vs, p) => Ok(Array(vs), p)
           }
  {
    hide CountAt, Number;
    CountConverts(Arr, data, pos, cfg);
  }

  lemma {:induction false} MapRead(data: bytes, pos: nat, cfg: Config, depth: int)
    requires pos < |data| && CountAt(Kind.Map, data, pos + 1, data[pos], cfg).Ok?
    ensures var count := CountAt(Kind.Map, data, pos + 1, data[pos], cfg);
      Read(ValueMode, data, pos, cfg, depth)
        == if depth + 1 > cfg.maxDepth then Fail(MaxDepthExceeded, count.pos)
           else match ReadPairs(ValueMode, data, count.pos, count.value, cfg, depth + 1) {
             case Fail(e, p) => Fail(e, p)
             case Ok(kvs, p) => Ok(Value.Map(kvs), p)
           }
  {
    hide CountAt, Number;
    CountConverts(Kind.Map, data, pos, cfg);
  }

  /** A field value that is not nil: `Decode` reads it one level down, given room for a slice and for a string. */
  lemma {:induction false} ValueReads(k: FieldKind, data: bytes, pos: nat, cfg: Config, depth: int)
    requires pos < |data| && Flat(k) && data[pos] != NIL && ValueAt(Cached, k, data, pos + 1, data[pos], cfg, depth).Ok?
    ensures var x := ValueAt(Cached, k, data, pos + 1, data[pos], cfg, depth);
      var r := Read(ValueMode, data, pos, cfg, depth + 1);
      && (r.Ok? <==> TakesText(x.value, IsStr(data[pos]), cfg) && (x.value.VList? ==> depth + 2 <= cfg.maxDepth))
      && (r.Ok? ==> r.pos == x.pos && r.value != Nil && FieldConverts(k, r.value, x.value))
  {
    hide Read, ScalarAt, CountAt, ElemsAt;
    if k.FSlice? {
      ArrayRead(data, pos, cfg, depth + 1);
      var count := CountAt(Arr, data, pos + 1, data[pos], cfg);
      var none: seq<FieldVal> := [];
      ItemsConvert(k.elem, data, count.pos, count.value, cfg, depth + 2, none);
      var xs := ElemsAt(Cached, k.elem, data, count.pos, count.value, cfg, none).value;
      assert forall i :: 0 <= i < |xs| ==> xs[i] == xs[|none| + i];
    } else {
      ScalarRefines(k, data, pos + 1, data[pos], cfg);
      ScalarTakes(k, data, pos, cfg);
      ScalarConverts(Reflective, k, data, pos, cfg, depth + 1);
    }
  }

  lemma {:induction false} ScalarTakes(k: FieldKind, data: bytes, pos: nat, cfg: Config)
    requires pos < |data| && IsScalar(k) && ScalarAt(Cached, k, data, pos + 1, data[pos], cfg).Ok?
    ensures FormatTaken(Reflective, k, data[pos])
  {
    hide ScalarAt;
    ScalarConverts(Cached, k, data, pos, cfg, 0);
  }

  // ---- one pair ----

  /** A key that the struct decoder reads is a string key to `Decode`. */
  lemma {:induction false} KeyReads(data: bytes, pos: nat, cfg: Config, depth: int)
    requires pos <= |data| && ParseItem(TypedMode, data, pos, true, cfg, depth).Ok?
    ensures var item := ParseItem(TypedMode, data, pos, true, cfg, depth);
      KeyOf(item.value).Some? && ReadKey(ValueMode, data, pos, cfg, depth + 1) == Ok(KeyOf(item.value), item.pos)
  {
    hide ReadKey;
    SameKey(data, pos, cfg, depth);
    SoundItem(TypedMode, data, pos, true, cfg, depth);
    Unfold(TypedMode, data, pos, true, cfg, depth);
    Unfold(ValueMode, data, pos, true, cfg, depth + 1);
    StringAnyMode(data, pos + 1, data[pos], cfg, depth);
    KeyAgrees(ValueMode, data, pos, cfg, depth + 1);
  }

  lemma StringAnyMode(data: bytes, pos: nat, f: byte, cfg: Config, depth: int)
    requires pos <= |data| && IsStr(f)
    ensures ParseBody(ValueMode, data, pos, f, cfg, depth + 1) == ParseBody(TypedMode, data, pos, f, cfg, depth)
  {
  }

  /** One pair as `Decode` reads it. */
  function OnePair(data: bytes, pos: nat, cfg: Config, depth: int): (r: Res<KV<bytes>>)
    requires pos <= |data|
    ensures pos <= r.pos <= |data|
  {
    match ReadKey(ValueMode, data, pos, cfg, depth)
    case Fail(e, p) => Fail(e, p)
    case Ok(key, q) =>
      match Read(ValueMode, data, q, cfg, depth)
      case Fail(e, p) => Fail(e, p)
      case Ok(v, p) => Ok(KV(key, v), p)
  }

  lemma {:induction false} EntryReads(fields: seq<Field>, data: bytes, pos: nat, cfg: Config, depth: int)
    requires pos <= |data| && (forall i :: 0 <= i < |fields| ==> Flat(fields[i].kind))
    requires EntryAt(fields, data, pos, cfg, depth).Ok?
    ensures var e, r := EntryAt(fields, data, pos, cfg, depth), OnePair(data, pos, cfg, depth + 1);
      && (r.Ok? <==> Taken(e.value, cfg, depth))
      && (r.Ok? ==> r.pos == e.pos && Matches(fields, e.value, r.value))
  {
    hide Read, ReadKey, ParseItem, ValueAt, FieldConverts;
    KeyReads(data, pos, cfg, depth);
    var item := ParseItem(TypedMode, data, pos, true, cfg, depth);
    var j := Find(fields, KeyBytes(KeyOf(item.value)));
    if j < 0 {
      SkipReads(data, item.pos, cfg, depth);
    } else if data[item.pos] == NIL {
      NilRead(data, item.pos, cfg, depth + 1);
    } else {
      ValueReads(fields[j].kind, data, item.pos, cfg, depth);
    }
  }

  lemma NilRead(data: bytes, pos: nat, cfg: Config, depth: int)
    requires pos < |data| && data[pos] == NIL
    ensures Read(ValueMode, data, pos, cfg, depth) == Ok(Nil, pos + 1)
  {
  }

  lemma {:induction false} SkipReads(data: bytes, pos: nat, cfg: Config, depth: int)
    requires pos <= |data| && Parse(ValueMode, data, pos, cfg, depth).Ok?
    ensures var w, r := Parse(ValueMode, data, pos, cfg, depth), Read(ValueMode, data, pos, cfg, depth + 1);
      (r.Ok? <==> DepthRoom(Nest(w.value), cfg, depth + 1)) && (r.Ok? ==> r.pos == w.pos)
  {
    hide Read, Parse;
    var here, below := Parse(ValueMode, data, pos, cfg, depth), Parse(ValueMode, data, pos, cfg, depth + 1);
    Agrees(ValueMode, data, pos, cfg, depth + 1);
    ParseDepth(ValueMode, data, pos, cfg, depth, depth + 1, here.value, here.pos);
    if below.Ok? { ParseDepth(ValueMode, data, pos, cfg, depth + 1, depth, below.value, below.pos); }
  }

  // ---- all pairs ----

  lemma {:induction false} PairsRead1(data: bytes, pos: nat, n: nat, cfg: Config, depth: int)
    requires pos <= |data| && n > 0
    ensures ReadPairs(ValueMode, data, pos, n, cfg, depth)
         == match OnePair(data, pos, cfg, depth) {
              case Fail(e, p) => Fail(e, p)
              case Ok(kv, p) => Before(kv, ReadPairs(ValueMode, data, p, n - 1, cfg, depth))
            }
  {
  }

  lemma {:induction false} EntriesRead(fields: seq<Field>, dst: seq<FieldVal>, data: bytes, pos: nat, n: nat,
                                       cfg: Config, depth: int)
    requires pos <= |data| && Shaped(fields, dst) && PairsAt(Cached, fields, dst, data, pos, n, cfg, depth).SOk?
    ensures var es, r := Entries(fields, data, pos, n, cfg, depth), ReadPairs(ValueMode, data, pos, n, cfg, depth + 1);
      && |es| == n && (r.Ok? <==> AllTaken(es, cfg, depth))
      && (r.Ok? ==>
            && r.pos == PairsAt(Cached, fields, dst, data, pos, n, cfg, depth).pos && |r.value| == n
            && forall i :: 0 <= i < n ==> Matches(fields, es[i], r.value[i]))
    decreases n
  {
    hide PairAt, EntryAt, Apply, Taken, OnePair, Matches, ReadPairs;
    if n > 0 {
      CachedStep(fields, dst, data, pos, cfg, depth);
      EntryReads(fields, data, pos, cfg, depth);
      PairsRead1(data, pos, n, cfg, depth + 1);
      var e := EntryAt(fields, data, pos, cfg, depth);
      var rest := Entries(fields, data, e.pos, n - 1, cfg, depth);
      assert ([e.value] + rest)[1..] == rest;
      EntriesRead(fields, Apply(Cached, fields, e.value, dst), data, e.pos, n - 1, cfg, depth);
    } else {
      NoPairs(data, pos, cfg, depth + 1);
    }
  }

  lemma NoPairs(data: bytes, pos: nat, cfg: Config, depth: int)
    requires pos <= |data|
    ensures ReadPairs(ValueMode, data, pos, 0, cfg, depth) == Ok([], pos)
  {
  }

  /**
   The cached struct decoder against `Decode`: of whatever it reads, `Decode` reads the same bytes exactly when
   the limits have room for the map and each pair, which is when `DecodeStruct` reads them. Then it reads one
   pair per entry, the key names the entry's field, and the entry's value is the pair's value converted;
   `FinalValue` says which entry a field ends with.
   */
  lemma {:induction false} StructMeansDecode(fields: seq<Field>, dst: seq<FieldVal>, data: bytes, pos: nat,
                                             cfg: Config, depth: int)
    requires pos < |data| && data[pos] != NIL && Shaped(fields, dst)
    requires StructAt(Cached, fields, dst, data, pos, cfg, depth).SOk?
    ensures var es, r := EntriesOf(fields, data, pos, cfg, depth), DecodeOf(data, pos, cfg, depth);
      && (r.Ok? <==> depth + 1 <= cfg.maxDepth && AllTaken(es, cfg, depth))
      && (r.Ok? ==>
            && r.pos == StructAt(Cached, fields, dst, data, pos, cfg, depth).pos
            && r.value.Map? && |r.value.pairs| == |es|
            && forall i :: 0 <= i < |es| ==> Matches(fields, es[i], r.value.pairs[i]))
  {
    hide StructAt, PairsAt, CountAt, DecodeOf, Read, ReadPairs, Entries, AllTaken, Matches;
    DecodeAgrees(data, pos, cfg, depth);
    OpenStruct(Cached, fields, dst, data, pos, cfg, depth);
    var count := CountAt(Kind.Map, data, pos + 1, data[pos], cfg);
    MapRead(data, pos, cfg, depth);
    EntriesRead(fields, dst, data, count.pos, count.value, cfg, depth);
  }
}
