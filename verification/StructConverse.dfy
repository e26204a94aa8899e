/** The converse comparison: of what the reflective struct decoder reads, exactly what the cached one reads too. */
module StructConverse {
  import opened Bytes
  import opened Format
  import opened Wire
  import opened Values
  import opened Grammar
  import opened Encoding
  import opened Fields
  import opened StructDecoding
  import opened StructRefinement

  // ---- one value ----

  /**
   The cached decoder takes a scalar of this format: no signed format for an unsigned field, no string over the binary
   limit.
   */
  predicate TakesScalar(k: FieldKind, f: byte, v: FieldVal, cfg: Config) {
    Accepts(Cached, k, f) && (v.VBytes? && IsStr(f) ==> |v.bin| <= cfg.maxBin)
  }

  lemma ScalarConverse(k: FieldKind, data: bytes, pos: nat, f: byte, cfg: Config)
    requires pos <= |data| && IsScalar(k) && ScalarAt(Reflective, k, data, pos, f, cfg).Ok?
    ensures ScalarAt(Cached, k, data, pos, f, cfg).Ok?
       <==> TakesScalar(k, f, ScalarAt(Reflective, k, data, pos, f, cfg).value, cfg)
    ensures ScalarAt(Cached, k, data, pos, f, cfg).Ok?
        ==> ScalarAt(Cached, k, data, pos, f, cfg) == ScalarAt(Reflective, k, data, pos, f, cfg)
  {
    if k.FBytes? {
      ScalarBlob(Cached, k, data, pos, f, cfg);
      ScalarBlob(Reflective, k, data, pos, f, cfg);
    }
  }

  /** One of n elements is a nil, which only the reflective decoder reads. */
  ghost predicate HasNil(k: FieldKind, data: bytes, pos: nat, n: nat, cfg: Config)
    requires pos <= |data| && IsScalar(k)
    decreases n
  {
    && n > 0 && pos < |data|
    && (data[pos] == NIL
        || (ElemAt(Reflective, k, data, pos, cfg).Ok?
            && HasNil(k, data, ElemAt(Reflective, k, data, pos, cfg).pos, n - 1, cfg)))
  }

  lemma {:induction false} ElemsConverse(k: FieldKind, data: bytes, pos: nat, n: nat, cfg: Config, xs: seq<FieldVal>)
    requires pos <= |data| && (k.FString? || k == FInt(64)) && ElemsAt(Reflective, k, data, pos, n, cfg, xs).Ok?
    ensures ElemsAt(Cached, k, data, pos, n, cfg, xs).Ok? <==> !HasNil(k, data, pos, n, cfg)
    ensures ElemsAt(Cached, k, data, pos, n, cfg, xs).Ok?
        ==> ElemsAt(Cached, k, data, pos, n, cfg, xs) == ElemsAt(Reflective, k, data, pos, n, cfg, xs)
    decreases n
  {
    if n > 0 {
      ElemConverse(k, data, pos, cfg);
      var e := ElemAt(Reflective, k, data, pos, cfg);
      ElemsConverse(k, data, e.pos, n - 1, cfg, xs + [e.value]);
    }
  }

  lemma ElemConverse(k: FieldKind, data: bytes, pos: nat, cfg: Config)
    requires pos <= |data| && (k.FString? || k == FInt(64)) && ElemAt(Reflective, k, data, pos, cfg).Ok?
    ensures pos < |data|
    ensures data[pos] == NIL ==> ElemAt(Cached, k, data, pos, cfg).Fail?
    ensures data[pos] != NIL ==> ElemAt(Cached, k, data, pos, cfg) == ElemAt(Reflective, k, data, pos, cfg)
  {
  }

  // ---- one pair ----

  /**
   What the reflective decoder sees in one pair: a key that is no string, one no field has, or a field with its value.
   */
  datatype Seen = Odd | Other | Own(field: nat, format: byte, value: FieldVal, nils: bool)

  ghost function OwnAt(j: nat, k: FieldKind, data: bytes, pos: nat, cfg: Config, depth: int): (r: Res<Seen>)
    requires pos <= |data| && Flat(k)
    ensures pos <= r.pos <= |data|
  {
    if pos == |data| then Fail(UnexpectedEOF, pos)
    else if data[pos] == NIL then Ok(Own(j, NIL, Zero(k), false), pos + 1)
    else match ValueAt(Reflective, k, data, pos + 1, data[pos], cfg, depth)
      case Fail(e, p) => Fail(e, p)
      case Ok(v, p) => Ok(Own(j, data[pos], v, k.FSlice? && SliceHasNil(k.elem, data, pos + 1, data[pos], cfg)), p)
  }

  ghost predicate SliceHasNil(k: FieldKind, data: bytes, pos: nat, f: byte, cfg: Config)
    requires pos <= |data| && IsScalar(k)
  {
    var count := CountAt(Arr, data, pos, f, cfg);
    count.Ok? && HasNil(k, data, count.pos, count.value, cfg)
  }

  /** One pair as the reflective decoder goes through it. */
  ghost function SeenAt(fields: seq<Field>, data: bytes, pos: nat, cfg: Config, depth: int): (r: Res<Seen>)
    requires pos <= |data| && forall i :: 0 <= i < |fields| ==> Flat(fields[i].kind)
    ensures r.pos <= |data|
  {
    if pos < |data| && !IsStr(data[pos]) then
      match ParseBody(ValueMode, data, pos + 1, data[pos], cfg, depth)
      case Fail(e, p) => Fail(e, p)
      case Ok(_, q) => Skipped(Odd, data, q, cfg, depth)
    else
      match ParseItem(TypedMode, data, pos, true, cfg, depth)
      case Fail(e, p) => Fail(e, p)
      case Ok(key, q) =>
        var j := Find(fields, KeyBytes(KeyOf(key)));
        if j >= 0 then OwnAt(j, fields[j].kind, data, q, cfg, depth) else Skipped(Other, data, q, cfg, depth)
  }

  ghost function Skipped(s: Seen, data: bytes, pos: nat, cfg: Config, depth: int): (r: Res<Seen>)
    requires pos <= |data|
    ensures r.pos <= |data|
  {
    match Parse(ValueMode, data, pos, cfg, depth)
    case Fail(e, p) => Fail(e, p)
    case Ok(_, p) => Ok(s, p)
  }

  /** The cached decoder takes the pair too. */
  predicate CachedTakes(fields: seq<Field>, s: Seen, cfg: Config) {
    match s
    case Odd => false
    case Other => true
    case Own(j, format, value, nils) =>
      format == NIL ||
      (j < |fields| && if fields[j].kind.FSlice? then !nils else TakesScalar(fields[j].kind, format, value, cfg))
  }

  lemma {:induction false} ReflectiveSees(fields: seq<Field>, dst: seq<FieldVal>, data: bytes, pos: nat, cfg: Config,
                                          depth: int)
    requires pos <= |data| && Shaped(fields, dst)
    ensures var seen := SeenAt(fields, data, pos, cfg, depth);
      var r := PairAt(Reflective, fields, dst, data, pos, cfg, depth);
      (r.SOk? <==> seen.Ok?) && (r.SOk? ==> r.pos == seen.pos)
  {
  }

  lemma {:induction false} ValueConverse(k: FieldKind, data: bytes, pos: nat, f: byte, cfg: Config, depth: int)
    requires pos <= |data| && Flat(k) && ValueAt(Reflective, k, data, pos, f, cfg, depth + 1).Ok?
    ensures var cached := ValueAt(Cached, k, data, pos, f, cfg, depth);
      var reflective := ValueAt(Reflective, k, data, pos, f, cfg, depth + 1);
      && (cached.Ok? <==>
          if k.FSlice? then !SliceHasNil(k.elem, data, pos, f, cfg) else TakesScalar(k, f, reflective.value, cfg))
      && (cached.Ok? ==> cached == reflective)
  {
    if k.FSlice? {
      var count := CountAt(Arr, data, pos, f, cfg);
      ElemsConverse(k.elem, data, count.pos, count.value, cfg, []);
    } else {
      ScalarConverse(k, data, pos, f, cfg);
    }
  }

  lemma {:induction false} CachedSees(fields: seq<Field>, dst: seq<FieldVal>, data: bytes, pos: nat, cfg: Config,
                                      depth: int)
    requires pos <= |data| && Shaped(fields, dst) && SeenAt(fields, data, pos, cfg, depth + 1).Ok?
    ensures var seen := SeenAt(fields, data, pos, cfg, depth + 1);
      var r := PairAt(Cached, fields, dst, data, pos, cfg, depth);
      (r.SOk? <==> CachedTakes(fields, seen.value, cfg)) && (r.SOk? ==> r.pos == seen.pos)
  {
    hide ValueAt, ParseBody, SliceHasNil, TakesScalar, Accepts, ShapeOf;
    if pos < |data| {
      Unfold(TypedMode, data, pos, true, cfg, depth);
      Unfold(TypedMode, data, pos, true, cfg, depth + 1);
      if IsStr(data[pos]) {
        LeafAnyDepth(TypedMode, data, pos + 1, data[pos], cfg, depth, depth + 1);
        var item := ParseItem(TypedMode, data, pos, true, cfg, depth + 1);
        var j := Find(fields, KeyBytes(KeyOf(item.value)));
        if j < 0 {
          Shallower(data, item.pos, cfg, depth);
        } else if data[item.pos] != NIL {
          ValueConverse(fields[j].kind, data, item.pos + 1, data[item.pos], cfg, depth);
        }
      }
    }
  }

  /** What is read one level down is read alike one level up. */
  lemma Shallower(data: bytes, pos: nat, cfg: Config, depth: int)
    requires pos <= |data| && Parse(ValueMode, data, pos, cfg, depth + 1).Ok?
    ensures Parse(ValueMode, data, pos, cfg, depth) == Parse(ValueMode, data, pos, cfg, depth + 1)
  {
    var r := Parse(ValueMode, data, pos, cfg, depth + 1);
    ParseDepth(ValueMode, data, pos, cfg, depth + 1, depth, r.value, r.pos);
  }

  // ---- whole structs ----

  /** The pairs the reflective decoder goes through. */
  ghost function Sights(fields: seq<Field>, data: bytes, pos: nat, n: nat, cfg: Config, depth: int): seq<Seen>
    requires pos <= |data| && forall i :: 0 <= i < |fields| ==> Flat(fields[i].kind)
    decreases n
  {
    if n == 0 then [] else
    match SeenAt(fields, data, pos, cfg, depth)
    case Fail(_, _) => []
    case Ok(s, p) => [s] + Sights(fields, data, p, n - 1, cfg, depth)
  }

  /** The destination after one pair of the reflective decoder: its value, zero for nil; other keys change nothing. */
  function Assign(s: Seen, dst: seq<FieldVal>): (d: seq<FieldVal>)
    ensures |d| == |dst|
  {
    if s.Own? && s.field < |dst| then dst[s.field := s.value] else dst
  }

  function AssignAll(ss: seq<Seen>, dst: seq<FieldVal>): (d: seq<FieldVal>)
    ensures |d| == |dst|
  {
    if ss == [] then dst else AssignAll(ss[1..], Assign(ss[0], dst))
  }

  lemma {:induction false} ReflectiveAssigns(fields: seq<Field>, dst: seq<FieldVal>, data: bytes, pos: nat,
                                             cfg: Config, depth: int)
    requires pos <= |data| && Shaped(fields, dst)
    ensures PairAt(Reflective, fields, dst, data, pos, cfg, depth)
         == match SeenAt(fields, data, pos, cfg, depth) {
              case Fail(e, p) => SFail(e, p, dst)
              case Ok(s, p) => SOk(Assign(s, dst), p)
            }
  {
  }

  /**
   The reflective loop, completely: the destination holds exactly what the pairs before the first failing one
   make of it.
   */
  lemma {:induction false} ReflectiveExactly(fields: seq<Field>, dst: seq<FieldVal>, data: bytes, pos: nat, n: nat,
                                             cfg: Config, depth: int)
    requires pos <= |data| && Shaped(fields, dst)
    ensures var ss := Sights(fields, data, pos, n, cfg, depth);
      var r := PairsAt(Reflective, fields, dst, data, pos, n, cfg, depth);
      r.dst == AssignAll(ss, dst) && (r.SOk? <==> |ss| == n)
    decreases n
  {
    hide PairAt, SeenAt, Assign;
    if n > 0 {
      ReflectiveAssigns(fields, dst, data, pos, cfg, depth);
      var seen := SeenAt(fields, data, pos, cfg, depth);
      if seen.Ok? {
        var rest := Sights(fields, data, seen.pos, n - 1, cfg, depth);
        assert ([seen.value] + rest)[1..] == rest;
        ReflectiveExactly(fields, Assign(seen.value, dst), data, seen.pos, n - 1, cfg, depth);
      }
    }
  }

  predicate CachedTakesAll(fields: seq<Field>, ss: seq<Seen>, cfg: Config) {
    ss == [] || (CachedTakes(fields, ss[0], cfg) && CachedTakesAll(fields, ss[1..], cfg))
  }

  lemma {:induction false} PairsConverse(fields: seq<Field>, dst: seq<FieldVal>, dst': seq<FieldVal>, data: bytes,
                                         pos: nat, n: nat, cfg: Config, depth: int)
    requires pos <= |data| && Shaped(fields, dst) && Shaped(fields, dst')
    requires PairsAt(Reflective, fields, dst, data, pos, n, cfg, depth + 1).SOk?
    ensures var cached := PairsAt(Cached, fields, dst', data, pos, n, cfg, depth);
      && (cached.SOk? <==> CachedTakesAll(fields, Sights(fields, data, pos, n, cfg, depth + 1), cfg))
      && (cached.SOk? ==> cached.pos == PairsAt(Reflective, fields, dst, data, pos, n, cfg, depth + 1).pos)
    decreases n
  {
    hide PairAt, SeenAt, CachedTakes;
    if n > 0 {
      ReflectiveSees(fields, dst, data, pos, cfg, depth + 1);
      CachedSees(fields, dst', data, pos, cfg, depth);
      var seen, rest := SeenAt(fields, data, pos, cfg, depth + 1), PairAt(Cached, fields, dst', data, pos, cfg, depth);
      var ss := Sights(fields, data, seen.pos, n - 1, cfg, depth + 1);
      assert ([seen.value] + ss)[1..] == ss;
      if rest.SOk? {
        var next := PairAt(Reflective, fields, dst, data, pos, cfg, depth + 1);
        PairsConverse(fields, next.dst, rest.dst, data, seen.pos, n - 1, cfg, depth);
      }
    }
  }

  /** The pairs of the struct at pos as the reflective decoder sees them; none for nil. */
  ghost function SightsOf(fields: seq<Field>, data: bytes, pos: nat, cfg: Config, depth: int): seq<Seen>
    requires pos < |data| && forall i :: 0 <= i < |fields| ==> Flat(fields[i].kind)
  {
    if data[pos] == NIL then [] else
    match CountAt(Kind.Map, data, pos + 1, data[pos], cfg)
    case Fail(_, _) => []
    case Ok(n, p) => Sights(fields, data, p, n, cfg, depth + 1)
  }

  /**
   Whatever `DecodeStruct` reads, `decodeInto` reads to the same place exactly when every key is a string, no
   element of a slice is nil, no unsigned field has a signed format, and no []byte field a string over the
   binary limit. What the two then leave in the fields is `CachedRefinesReflective`.
   */
  lemma {:induction false} ReflectiveRefinesCached(fields: seq<Field>, dst: seq<FieldVal>, data: bytes, pos: nat,
                                                   cfg: Config, depth: int)
    requires pos <= |data| && Shaped(fields, dst) && StructAt(Reflective, fields, dst, data, pos, cfg, depth).SOk?
    ensures StructAt(Cached, fields, dst, data, pos, cfg, depth).SOk?
       <==> CachedTakesAll(fields, SightsOf(fields, data, pos, cfg, depth), cfg)
    ensures var cached := StructAt(Cached, fields, dst, data, pos, cfg, depth);
      cached.SOk? ==> cached.pos == StructAt(Reflective, fields, dst, data, pos, cfg, depth).pos
  {
    if data[pos] != NIL {
      hide PairAt, SeenAt, Sights, CachedTakesAll, StructAt, PairsAt, CountAt;
      var count := CountAt(Kind.Map, data, pos + 1, data[pos], cfg);
      OpenStruct(Cached, fields, dst, data, pos, cfg, depth);
      OpenStruct(Reflective, fields, dst, data, pos, cfg, depth);
      PairsConverse(fields, dst, dst, data, count.pos, count.value, cfg, depth);
    }
  }
}
