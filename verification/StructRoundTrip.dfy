/**
 What a struct encoder writes, a struct decoder restores - whatever order the pairs are in and whatever else is
 between them - exactly when its limits have room.
 */
module StructRoundTrip {
  import opened Bytes
  import opened Format
  import opened Wire
  import opened Values
  import opened Grammar
  import opened Encoding
  import opened EncoderModule
  import opened Fields
  import opened StructDecoding
  import opened StructRefinement
  import opened StructEncoding

  /** Lengths fit the 32-bit counts. */
  predicate Sized(v: FieldVal) {
    match v
    case VStr(s) => |s| < LENGTHS
    case VBytes(s) => |s| < LENGTHS
    case VList(xs) => |xs| < LENGTHS && forall i :: 0 <= i < |xs| ==> Sized(xs[i])
    case _ => true
  }

  /** The decoder's limits admit the value as a field, or as an element of one. */
  predicate FieldFits(c: Codec, v: FieldVal, cfg: Config, depth: int) {
    match v
    case VStr(s) => |s| <= cfg.maxStr
    case VBytes(s) => |s| <= cfg.maxBin
    case VList(xs) =>
      && |xs| <= cfg.maxArr && (c.Reflective? ==> depth + 1 <= cfg.maxDepth)
      && forall i :: 0 <= i < |xs| ==> FieldFits(c, xs[i], cfg, depth)
    case _ => true
  }

  /** The value and its end where it fits, a failure where it does not. */
  ghost predicate Exact<T>(r: Res<T>, fits: bool, v: T, end: nat) {
    if fits then r == Ok(v, end) else r.Fail?
  }

  // ---- scalars and slices ----

  /** The tree of a scalar is legal, means the scalar again, and fits where the scalar does. */
  ghost predicate TreeOf(k: FieldKind, v: FieldVal, w: Wire, c: Codec, cfg: Config, depth: int)
    requires IsScalar(k)
  {
    && Legal(w) && w.Leaf? && w.format != NIL && Accepts(c, k, w.format) && FromValue(k, Denote(w)) == v
    && (Fits(ValueMode, w, LimitsFor(c, k, cfg), 0) <==> FieldFits(c, v, cfg, depth))
  }

  lemma ScalarTree(k: FieldKind, v: FieldVal, c: Codec, cfg: Config, depth: int)
    requires IsScalar(k) && Typed(k, v) && Sized(v)
    ensures TreeOf(k, v, CanonField(v), c, cfg, depth)
  {
    if v.VStr? || v.VBytes? { BlobTree(k, v, c, cfg, depth); } else { NumberTree(k, v, c, cfg, depth); }
  }

  lemma NumberTree(k: FieldKind, v: FieldVal, c: Codec, cfg: Config, depth: int)
    requires IsScalar(k) && Typed(k, v) && (v.VBool? || v.VInt? || v.VUint?)
    ensures TreeOf(k, v, CanonField(v), c, cfg, depth)
  {
    hide Signed, Pow256, BE, UnBE, WrapInt, WrapUint, HalfRange;
    match v
    case VBool(b) => CanonScalar(Bool(b));
    case VInt(i) => CanonScalar(Int(i)); WrapKeeps(k.bits, i, 0);
    case VUint(u) => CanonScalar(Uint(u)); WrapKeeps(k.bits, 0, u);
  }

  lemma BlobTree(k: FieldKind, v: FieldVal, c: Codec, cfg: Config, depth: int)
    requires IsScalar(k) && Typed(k, v) && Sized(v) && (v.VStr? || v.VBytes?)
    ensures TreeOf(k, v, CanonField(v), c, cfg, depth)
  {
    hide BE, UnBE;
    if v.VStr? {
      var _ := HeadField(Kind.Str, |v.str|);
    } else {
      var _ := HeadField(Kind.Bin, |v.bin|);
    }
  }

  lemma ScalarBack(k: FieldKind, v: FieldVal, c: Codec, data: bytes, pos: nat, cfg: Config, depth: int)
    requires IsScalar(k) && Typed(k, v) && Sized(v) && At(data, pos, Flatten(CanonField(v)))
    ensures data[pos] == CanonField(v).format && data[pos] != NIL
    ensures Exact(ScalarAt(c, k, data, pos + 1, data[pos], cfg), FieldFits(c, v, cfg, depth),
                  v, pos + |Flatten(CanonField(v))|)
  {
    hide CanonField, Denote, Fits, FieldFits, ParseBody, At, Flatten;
    var w := CanonField(v);
    FirstByte(w, data, pos);
    ScalarTree(k, v, c, cfg, depth);
    ReadExactly(ValueMode, w, data, pos, LimitsFor(c, k, cfg), 0);
    Unfold(ValueMode, data, pos, false, LimitsFor(c, k, cfg), 0);
  }

  lemma FirstByte(w: Wire, data: bytes, pos: nat)
    requires At(data, pos, Flatten(w))
    ensures pos < |data| && data[pos] == w.format
  {
    AtConcat(data, pos, [w.format], Body(w));
  }

  /** The tree is read as the element wherever it stands. */
  ghost predicate ReadsAs(c: Codec, k: FieldKind, w: Wire, v: FieldVal, cfg: Config)
    requires IsScalar(k)
  {
    forall data: bytes, pos: nat | At(data, pos, Flatten(w)) ::
      Exact(ElemAt(c, k, data, pos, cfg), FieldFits(c, v, cfg, 0), v, pos + |Flatten(w)|)
  }

  lemma ElemReads(k: FieldKind, v: FieldVal, c: Codec, cfg: Config)
    requires IsScalar(k) && Typed(k, v) && Sized(v)
    ensures ReadsAs(c, k, CanonField(v), v, cfg)
  {
    hide CanonField, Flatten, At, FieldFits, ScalarAt;
    forall data: bytes, pos: nat | At(data, pos, Flatten(CanonField(v)))
      ensures Exact(ElemAt(c, k, data, pos, cfg), FieldFits(c, v, cfg, 0), v, pos + |Flatten(CanonField(v))|)
    {
      ScalarBack(k, v, c, data, pos, cfg, 0);
    }
  }

  lemma CutFirst(ws: seq<Wire>, data: bytes, pos: nat)
    requires ws != [] && At(data, pos, FlattenAll(ws))
    ensures At(data, pos, Flatten(ws[0])) && At(data, pos + |Flatten(ws[0])|, FlattenAll(ws[1..]))
    ensures pos + |Flatten(ws[0])| + |FlattenAll(ws[1..])| == pos + |FlattenAll(ws)|
  {
    hide Flatten, At;
    AtConcat(data, pos, Flatten(ws[0]), FlattenAll(ws[1..]));
  }

  predicate ElemsFit(c: Codec, xs: seq<FieldVal>, cfg: Config) {
    forall i :: 0 <= i < |xs| ==> FieldFits(c, xs[i], cfg, 0)
  }

  lemma {:induction false} ElemsBack(k: FieldKind, ys: seq<FieldVal>, ws: seq<Wire>, c: Codec, data: bytes, pos: nat,
                                     cfg: Config, xs: seq<FieldVal>)
    requires IsScalar(k) && |ys| == |ws| && (forall i :: 0 <= i < |ys| ==> ReadsAs(c, k, ws[i], ys[i], cfg))
    requires At(data, pos, FlattenAll(ws))
    ensures Exact(ElemsAt(c, k, data, pos, |ys|, cfg, xs), ElemsFit(c, ys, cfg), xs + ys, pos + |FlattenAll(ws)|)
    decreases |ys|
  {
    hide ElemAt, Flatten, At, FieldFits;
    if ys == [] {
      assert xs + ys == xs;
    } else {
      CutFirst(ws, data, pos);
      assert ReadsAs(c, k, ws[0], ys[0], cfg);
      if FieldFits(c, ys[0], cfg, 0) {
        ElemsBack(k, ys[1..], ws[1..], c, data, pos + |Flatten(ws[0])|, cfg, xs + [ys[0]]);
        assert xs + [ys[0]] + ys[1..] == xs + ys;
        assert forall i :: 1 <= i < |ys| ==> ys[i] == ys[1..][i - 1];
      }
    }
  }

  lemma {:induction false} CanonFieldsAt(ys: seq<FieldVal>, i: nat)
    requires i < |ys|
    ensures CanonFields(ys)[i] == CanonField(ys[i])
  {
    if i > 0 { CanonFieldsAt(ys[1..], i - 1); }
  }

  /** The header of a container read back; its items follow. */
  lemma {:induction false} OpenNode(w: Wire, n: nat, data: bytes, pos: nat, cfg: Config)
    requires w.Node? && w.Shape().Counted? && (w.Shape().kind.Arr? || w.Shape().kind.Map?)
    requires |w.kids| == Needed(w.Shape().kind, n) && Holds(w.Shape().field, n) && At(data, pos, Flatten(w))
    ensures data[pos] == w.format
    ensures var p := pos + 1 + Width(w.Shape().field);
      && Exact(CountAt(w.Shape().kind, data, pos + 1, w.format, cfg), n <= cfg.Limit(w.Shape().kind), n, p)
      && At(data, p, FlattenAll(w.kids)) && p + |FlattenAll(w.kids)| == pos + |Flatten(w)|
  {
    hide At, Flatten, FlattenAll, ShapeOf, BE, UnBE;
    var field := w.Shape().field;
    FlattenCountedAny(w);
    CutHead(w.format, CountBytes(field, n), FlattenAll(w.kids), data, pos);
    CountRoundTrip(field, n, data[pos + 1..pos + 1 + Width(field)]);
  }

  lemma {:induction false} CutHead(f: byte, count: bytes, rest: bytes, data: bytes, pos: nat)
    requires At(data, pos, [f] + count + rest)
    ensures var p := pos + 1 + |count|;
      && p + |rest| <= |data| && data[pos] == f && data[pos + 1..p] == count && At(data, p, rest)
  {
    AtConcat(data, pos, [f] + count, rest);
    AtConcat(data, pos, [f], count);
    AtSlice(data, pos + 1, count);
  }

  /** An array whose items are read as the elements is read as the slice. */
  lemma ArrayBack(k: FieldKind, xs: seq<FieldVal>, w: Wire, c: Codec, data: bytes, pos: nat, cfg: Config, depth: int)
    requires IsScalar(k) && w.Node? && w.Shape().Counted? && w.Shape().kind.Arr? && Holds(w.Shape().field, |w.kids|)
    requires |xs| == |w.kids| && forall i :: 0 <= i < |xs| ==> ReadsAs(c, k, w.kids[i], xs[i], cfg)
    requires At(data, pos, Flatten(w))
    ensures data[pos] == w.format
    ensures Exact(SliceAt(c, k, data, pos + 1, w.format, cfg, depth),
                  |xs| <= cfg.maxArr && (c.Reflective? ==> depth + 1 <= cfg.maxDepth) && ElemsFit(c, xs, cfg),
                  VList(xs), pos + |Flatten(w)|)
  {
    hide Flatten, FlattenAll, ElemAt, CountAt, ElemsAt, ElemsFit, ReadsAs, At;
    OpenNode(w, |xs|, data, pos, cfg);
    ElemsBack(k, xs, w.kids, c, data, pos + 1 + Width(w.Shape().field), cfg, []);
    assert [] + xs == xs;
  }

  lemma SliceBack(k: FieldKind, xs: seq<FieldVal>, c: Codec, data: bytes, pos: nat, cfg: Config, depth: int)
    requires IsScalar(k) && Typed(FSlice(k), VList(xs)) && Sized(VList(xs)) &&
             At(data, pos, Flatten(CanonField(VList(xs))))
    ensures data[pos] != NIL
    ensures Exact(SliceAt(c, k, data, pos + 1, data[pos], cfg, depth), FieldFits(c, VList(xs), cfg, depth),
                  VList(xs), pos + |Flatten(CanonField(VList(xs)))|)
  {
    var w := CanonField(VList(xs));
    var _ := HeadField(Arr, |xs|);
    forall i | 0 <= i < |xs|
      ensures ReadsAs(c, k, w.kids[i], xs[i], cfg) && FieldFits(c, xs[i], cfg, depth) == FieldFits(c, xs[i], cfg, 0)
    {
      CanonFieldsAt(xs, i);
      ElemReads(k, xs[i], c, cfg);
      assert !xs[i].VList?;
    }
    ArrayBack(k, xs, w, c, data, pos, cfg, depth);
  }

  lemma FieldBack(k: FieldKind, v: FieldVal, cur: FieldVal, c: Codec, data: bytes, pos: nat, cfg: Config, depth: int)
    requires Flat(k) && Typed(k, v) && Sized(v) && At(data, pos, Flatten(CanonField(v)))
    ensures Exact(FieldAt(c, k, cur, data, pos, cfg, depth), FieldFits(c, v, cfg, depth), v,
                  pos + |Flatten(CanonField(v))|)
  {
    hide CanonField, FieldFits, ScalarAt, SliceAt, Flatten, At;
    if k.FSlice? {
      SliceBack(k.elem, v.items, c, data, pos, cfg, depth);
    } else {
      ScalarBack(k, v, c, data, pos, cfg, depth);
    }
  }

  // ---- pairs in any order ----

  /** One pair: a field with its value, or a key no field has with anything at all. */
  ghost predicate GoodPair(fields: seq<Field>, vals: seq<FieldVal>, key: Wire, val: Wire)
    requires |vals| == |fields|
  {
    && Legal(key) && Legal(val)
    && (IsStr(key.format) && Find(fields, key.payload) >= 0 ==>
          val == CanonField(vals[Find(fields, key.payload)]) && Sized(vals[Find(fields, key.payload)]))
  }

  /** Every pair is good; their order, and what is unknown among them, is free. */
  ghost predicate Carries(fields: seq<Field>, vals: seq<FieldVal>, kids: seq<Wire>)
    requires |vals| == |fields|
  {
    |kids| % 2 == 0 &&
    (kids != [] ==> GoodPair(fields, vals, kids[0], kids[1]) && Carries(fields, vals, kids[2..]))
  }

  /** The decoder's limits admit the pair; a key that is no string ends the cached decoder. */
  ghost predicate PairFits(c: Codec, fields: seq<Field>, vals: seq<FieldVal>, key: Wire, val: Wire, cfg: Config,
                           depth: int)
    requires |vals| == |fields| && GoodPair(fields, vals, key, val)
  {
    if !IsStr(key.format) then c.Reflective? && Fits(ValueMode, key, cfg, depth) && Fits(ValueMode, val, cfg, depth)
    else
      var j := Find(fields, key.payload);
      && |key.payload| <= cfg.maxStr
      && if j >= 0 then FieldFits(c, vals[j], cfg, depth) else Fits(ValueMode, val, cfg, depth)
  }

  ghost predicate Admits(c: Codec, fields: seq<Field>, vals: seq<FieldVal>, kids: seq<Wire>, cfg: Config, depth: int)
    requires |vals| == |fields| && Carries(fields, vals, kids)
    decreases |kids|
  {
    kids == [] ||
    (PairFits(c, fields, vals, kids[0], kids[1], cfg, depth) && Admits(c, fields, vals, kids[2..], cfg, depth))
  }

  /** Field j is among the keys. */
  ghost predicate Mentions(fields: seq<Field>, kids: seq<Wire>, j: nat) {
    |kids| >= 2 && ((IsStr(kids[0].format) && kids[0].Leaf? && Find(fields, kids[0].payload) == j) ||
                    Mentions(fields, kids[2..], j))
  }

  /** The destination once the pair with this key is read. */
  ghost function Store(fields: seq<Field>, vals: seq<FieldVal>, dst: seq<FieldVal>, key: Wire): (s: seq<FieldVal>)
    requires |vals| == |fields| == |dst|
    ensures |s| == |dst|
  {
    if !IsStr(key.format) || key.Node? || Find(fields, key.payload) < 0 then dst
    else dst[Find(fields, key.payload) := vals[Find(fields, key.payload)]]
  }

  /** The destination once all pairs are read. */
  ghost function After(fields: seq<Field>, vals: seq<FieldVal>, dst: seq<FieldVal>, kids: seq<Wire>): (s: seq<FieldVal>)
    requires |vals| == |fields| == |dst|
    ensures |s| == |dst|
    decreases |kids|
  {
    if |kids| < 2 then dst else After(fields, vals, Store(fields, vals, dst, kids[0]), kids[2..])
  }

  lemma {:induction false} AfterRestores(fields: seq<Field>, vals: seq<FieldVal>, dst: seq<FieldVal>, kids: seq<Wire>,
                                         j: nat)
    requires |vals| == |fields| == |dst| && j < |fields| && Carries(fields, vals, kids)
    ensures After(fields, vals, dst, kids)[j] == if Mentions(fields, kids, j) then vals[j] else dst[j]
    decreases |kids|
  {
    if kids != [] {
      AfterRestores(fields, vals, Store(fields, vals, dst, kids[0]), kids[2..], j);
    }
  }

  /** The step of `After` where the pair fits, a failure where it does not. */
  ghost predicate ExactStep(r: SRes, fits: bool, dst: seq<FieldVal>, end: nat) {
    if fits then r == SOk(dst, end) else r.SFail?
  }

  lemma PairBack(c: Codec, fields: seq<Field>, vals: seq<FieldVal>, dst: seq<FieldVal>, key: Wire, val: Wire,
                 data: bytes, pos: nat, cfg: Config, depth: int)
    requires AllTyped(fields, vals) && Shaped(fields, dst) && GoodPair(fields, vals, key, val)
    requires At(data, pos, Flatten(key)) && At(data, pos + |Flatten(key)|, Flatten(val))
    ensures ExactStep(PairAt(c, fields, dst, data, pos, cfg, depth), PairFits(c, fields, vals, key, val, cfg, depth),
                      Store(fields, vals, dst, key), pos + |Flatten(key)| + |Flatten(val)|)
  {
    hide FieldAt, CanonField, BE, ParseBody, Flatten, FieldFits;
    var q := pos + |Flatten(key)|;
    FirstByte(key, data, pos);
    FirstByte(val, data, q);
    if IsStr(key.format) {
      ReadExactly(TypedMode, key, data, pos, cfg, depth);
      Unfold(TypedMode, data, pos, true, cfg, depth);
      assert KeyBytes(KeyOf(key)) == key.payload;
      var j := Find(fields, key.payload);
      if j < 0 {
        ReadExactly(ValueMode, val, data, q, cfg, depth);
      } else {
        FieldBack(fields[j].kind, vals[j], dst[j], c, data, q, cfg, depth);
      }
    } else {
      ReadExactly(ValueMode, key, data, pos, cfg, depth);
      Unfold(ValueMode, data, pos, false, cfg, depth);
      Unfold(TypedMode, data, pos, true, cfg, depth);
      ReadExactly(ValueMode, val, data, q, cfg, depth);
    }
  }

  /** The pair is read exactly wherever it stands. */
  ghost predicate PairReads(c: Codec, fields: seq<Field>, vals: seq<FieldVal>, key: Wire, val: Wire, cfg: Config,
                            depth: int)
    requires |vals| == |fields| && GoodPair(fields, vals, key, val)
  {
    forall dst: seq<FieldVal>, data: bytes, pos: nat |
      Shaped(fields, dst) && At(data, pos, Flatten(key)) && At(data, pos + |Flatten(key)|, Flatten(val)) ::
      ExactStep(PairAt(c, fields, dst, data, pos, cfg, depth), PairFits(c, fields, vals, key, val, cfg, depth),
                Store(fields, vals, dst, key), pos + |Flatten(key)| + |Flatten(val)|)
  }

  ghost predicate PairsAllRead(c: Codec, fields: seq<Field>, vals: seq<FieldVal>, kids: seq<Wire>, cfg: Config,
                               depth: int)
    requires |vals| == |fields| && Carries(fields, vals, kids)
    decreases |kids|
  {
    kids != [] ==>
      PairReads(c, fields, vals, kids[0], kids[1], cfg, depth) && PairsAllRead(c, fields, vals, kids[2..], cfg, depth)
  }

  lemma {:induction false} CarriesReads(c: Codec, fields: seq<Field>, vals: seq<FieldVal>, kids: seq<Wire>,
                                        cfg: Config, depth: int)
    requires AllTyped(fields, vals) && Carries(fields, vals, kids)
    ensures PairsAllRead(c, fields, vals, kids, cfg, depth)
    decreases |kids|
  {
    if kids != [] {
      hide PairAt, PairFits, Store, Flatten, At, GoodPair;
      CarriesReads(c, fields, vals, kids[2..], cfg, depth);
      forall dst: seq<FieldVal>, data: bytes, pos: nat |
        Shaped(fields, dst) && At(data, pos, Flatten(kids[0])) && At(data, pos + |Flatten(kids[0])|, Flatten(kids[1]))
        ensures ExactStep(PairAt(c, fields, dst, data, pos, cfg, depth),
                          PairFits(c, fields, vals, kids[0], kids[1], cfg, depth),
                          Store(fields, vals, dst, kids[0]), pos + |Flatten(kids[0])| + |Flatten(kids[1])|)
      {
        PairBack(c, fields, vals, dst, kids[0], kids[1], data, pos, cfg, depth);
      }
    }
  }

  lemma {:induction false} CutPair(kids: seq<Wire>, data: bytes, pos: nat)
    requires |kids| >= 2 && At(data, pos, FlattenAll(kids))
    ensures var q := pos + |Flatten(kids[0])|; var p := q + |Flatten(kids[1])|;
      && At(data, pos, Flatten(kids[0])) && At(data, q, Flatten(kids[1])) && At(data, p, FlattenAll(kids[2..]))
      && p + |FlattenAll(kids[2..])| == pos + |FlattenAll(kids)|
  {
    hide Flatten, At;
    CutFirst(kids, data, pos);
    CutFirst(kids[1..], data, pos + |Flatten(kids[0])|);
    assert kids[1..][1..] == kids[2..];
  }

  lemma {:induction false} PairsBack(c: Codec, fields: seq<Field>, vals: seq<FieldVal>, dst: seq<FieldVal>,
                                     kids: seq<Wire>, n: nat, data: bytes, pos: nat, cfg: Config, depth: int)
    requires |vals| == |fields| && Shaped(fields, dst) && |kids| == 2 * n && Carries(fields, vals, kids)
    requires PairsAllRead(c, fields, vals, kids, cfg, depth) && At(data, pos, FlattenAll(kids))
    ensures ExactStep(PairsAt(c, fields, dst, data, pos, n, cfg, depth), Admits(c, fields, vals, kids, cfg, depth),
                      After(fields, vals, dst, kids), pos + |FlattenAll(kids)|)
    decreases n
  {
    hide PairAt, PairFits, Store, Flatten, At, GoodPair;
    if n != 0 {
      CutPair(kids, data, pos);
      var key, val, dst' := kids[0], kids[1], Store(fields, vals, dst, kids[0]);
      var p := pos + |Flatten(key)| + |Flatten(val)|;
      assert PairReads(c, fields, vals, key, val, cfg, depth);
      if PairFits(c, fields, vals, key, val, cfg, depth) {
        assert PairAt(c, fields, dst, data, pos, cfg, depth) == SOk(dst', p);
        PairsBack(c, fields, vals, dst', kids[2..], n - 1, data, p, cfg, depth);
      }
    }
  }

  /** The decoder's limits have room for the map and for each of its pairs. */
  ghost predicate Room(c: Codec, fields: seq<Field>, vals: seq<FieldVal>, kids: seq<Wire>, cfg: Config, depth: int)
    requires |vals| == |fields| && Carries(fields, vals, kids)
  {
    && |kids| / 2 <= cfg.maxMap && (c.Reflective? ==> depth + 1 <= cfg.maxDepth)
    && Admits(c, fields, vals, kids, cfg, Inner(c, depth))
  }

  /**
   A map whose pairs are the fields' own, in any order and mixed with any pairs of other keys, read into any
   destination by the cached or the reflective decoder: it is read exactly when there is room for it; then
   every field mentioned holds its value and every other field what it held before; so the struct is restored
   exactly when there is room and the fields left out hold their values already.
   */
  lemma {:induction false} StructRestored(c: Codec, fields: seq<Field>, vals: seq<FieldVal>, dst: seq<FieldVal>,
                                          w: Wire, data: bytes, pos: nat, cfg: Config, depth: int)
    requires AllTyped(fields, vals) && Shaped(fields, dst) && At(data, pos, Flatten(w))
    requires w.Node? && w.Shape().Counted? && w.Shape().kind.Map? && Holds(w.Shape().field, |w.kids| / 2)
    requires Carries(fields, vals, w.kids)
    ensures var r, room, end := StructAt(c, fields, dst, data, pos, cfg, depth),
                                Room(c, fields, vals, w.kids, cfg, depth), pos + |Flatten(w)|;
      && (r.SOk? <==> room)
      && (room ==> r.pos == end && forall j :: 0 <= j < |fields| ==>
            r.dst[j] == if Mentions(fields, w.kids, j) then vals[j] else dst[j])
      && (r == SOk(vals, end) <==>
          room && forall j :: 0 <= j < |fields| ==> Mentions(fields, w.kids, j) || dst[j] == vals[j])
  {
    hide Carries, Flatten, StructAt, After, Mentions;
    MapBack(c, fields, vals, dst, w, data, pos, cfg, depth);
    var after := After(fields, vals, dst, w.kids);
    forall j | 0 <= j < |fields| ensures after[j] == if Mentions(fields, w.kids, j) then vals[j] else dst[j] {
      AfterRestores(fields, vals, dst, w.kids, j);
    }
    if forall j :: 0 <= j < |fields| ==> Mentions(fields, w.kids, j) || dst[j] == vals[j] { assert after == vals; }
  }

  lemma MapBack(c: Codec, fields: seq<Field>, vals: seq<FieldVal>, dst: seq<FieldVal>, w: Wire,
                data: bytes, pos: nat, cfg: Config, depth: int)
    requires AllTyped(fields, vals) && Shaped(fields, dst) && At(data, pos, Flatten(w))
    requires w.Node? && w.Shape().Counted? && w.Shape().kind.Map? && Holds(w.Shape().field, |w.kids| / 2)
    requires Carries(fields, vals, w.kids)
    ensures ExactStep(StructAt(c, fields, dst, data, pos, cfg, depth), Room(c, fields, vals, w.kids, cfg, depth),
                      After(fields, vals, dst, w.kids), pos + |Flatten(w)|)
  {
    hide CountAt, Flatten, FlattenAll, PairAt, PairsAt, StructAt, Admits, After, PairsAllRead;
    var n, p := |w.kids| / 2, pos + 1 + Width(w.Shape().field);
    OpenNode(w, n, data, pos, cfg);
    OpenStruct(c, fields, dst, data, pos, cfg, depth);
    CarriesReads(c, fields, vals, w.kids, cfg, Inner(c, depth));
    PairsBack(c, fields, vals, dst, w.kids, n, data, p, cfg, Inner(c, depth));
  }

  // ---- the encoders' own output ----

  predicate DistinctNames(fields: seq<Field>) {
    forall i, j :: 0 <= i < j < |fields| ==> fields[i].name != fields[j].name
  }

  /** Name and value of field j, if it is written, fit their counts. */
  predicate SizedField(fields: seq<Field>, vals: seq<FieldVal>, j: nat)
    requires j < |fields| == |vals|
  {
    IsWritten(fields[j], vals[j]) ==> |fields[j].name| < LENGTHS && Sized(vals[j])
  }

  /** The decoder's limits admit name and value of field j, if it is written. */
  predicate FieldAdmitted(c: Codec, fields: seq<Field>, vals: seq<FieldVal>, j: nat, cfg: Config, depth: int)
    requires j < |fields| == |vals|
  {
    IsWritten(fields[j], vals[j]) ==> |fields[j].name| <= cfg.maxStr && FieldFits(c, vals[j], cfg, depth)
  }

  /** The tree of a present field's pair. */
  lemma {:induction false} OwnPair(fields: seq<Field>, vals: seq<FieldVal>, i: nat)
    requires AllTyped(fields, vals) && DistinctNames(fields) && i < |fields|
    requires |fields[i].name| < LENGTHS && Sized(vals[i])
    ensures var key := CanonStr(fields[i].name);
      && GoodPair(fields, vals, key, CanonField(vals[i]))
      && IsStr(key.format) && key.Leaf? && key.payload == fields[i].name && Find(fields, key.payload) == i
  {
    var _ := HeadField(Kind.Str, |fields[i].name|);
    LegalField(fields[i].kind, vals[i]);
  }

  lemma {:induction false} LegalField(k: FieldKind, v: FieldVal)
    requires Flat(k) && Typed(k, v) && Sized(v)
    ensures Legal(CanonField(v))
  {
    if v.VList? {
      var _ := HeadField(Arr, |v.items|);
      LegalFields(k.elem, v.items);
    } else {
      ScalarTree(k, v, Cached, Config(0, 0, 0, 0, 0, 0), 0);
    }
  }

  lemma {:induction false} LegalFields(k: FieldKind, xs: seq<FieldVal>)
    requires IsScalar(k) && forall i :: 0 <= i < |xs| ==> Typed(k, xs[i]) && Sized(xs[i])
    ensures LegalAll(CanonFields(xs))
  {
    hide CanonField, Legal;
    if xs != [] {
      ScalarTree(k, xs[0], Cached, Config(0, 0, 0, 0, 0, 0), 0);
      LegalFields(k, xs[1..]);
      ConsAll(CanonField(xs[0]), CanonFields(xs[1..]));
    }
  }

  /** The pairs written for the fields from i on are good, and mention and need exactly the fields present. */
  lemma {:induction false} OwnPairs(c: Codec, fields: seq<Field>, vals: seq<FieldVal>, i: nat, cfg: Config, depth: int)
    requires AllTyped(fields, vals) && DistinctNames(fields) && i <= |fields|
    requires forall j :: 0 <= j < |fields| ==> SizedField(fields, vals, j)
    ensures var kids := KidsOf(fields[i..], vals[i..]);
      && Carries(fields, vals, kids)
      && (forall j :: i <= j < |fields| && IsWritten(fields[j], vals[j]) ==> Mentions(fields, kids, j))
      && (Admits(c, fields, vals, kids, cfg, depth) <==>
            forall j :: i <= j < |fields| ==> FieldAdmitted(c, fields, vals, j, cfg, depth))
    decreases |fields| - i
  {
    hide IsWritten, Present, Legal, Head, Header, CanonField, CanonStr, Find, GoodPair, FieldFits, Sized;
    if i < |fields| {
      OwnPairs(c, fields, vals, i + 1, cfg, depth);
      assert fields[i..][1..] == fields[i + 1..] && vals[i..][1..] == vals[i + 1..];
      assert SizedField(fields, vals, i);
      PresentIsWritten(fields[i], vals[i]);
      if Present(fields[i], vals[i]) {
        var key, val, rest := CanonStr(fields[i].name), CanonField(vals[i]), KidsOf(fields[i + 1..], vals[i + 1..]);
        var kids := [key] + ([val] + rest);
        assert kids[1] == val && kids[2..] == rest;
        OwnPair(fields, vals, i);
        assert FieldAdmitted(c, fields, vals, i, cfg, depth) <==> PairFits(c, fields, vals, key, val, cfg, depth);
      }
    }
  }

  /**
   Struct round trip: what `encodeInto` or `encodeStruct` writes for a struct whose lengths fit their counts,
   `decodeInto` and `DecodeStruct` read back into a zero destination as the same struct, omitted fields
   included - exactly when the limits admit the struct and each field written.
   */
  lemma StructRoundTrips(c: Codec, fields: seq<Field>, vals: seq<FieldVal>, data: bytes, pos: nat, cfg: Config,
                         depth: int)
    requires AllTyped(fields, vals) && DistinctNames(fields) && |Written(fields, vals, 0)| < LENGTHS
    requires forall j :: 0 <= j < |fields| ==> SizedField(fields, vals, j)
    requires At(data, pos, Flatten(StructTree(fields, vals)))
    ensures StructAt(c, fields, Zeros(fields), data, pos, cfg, depth)
            == SOk(vals, pos + |Flatten(StructTree(fields, vals))|)
       <==> && |Written(fields, vals, 0)| <= cfg.maxMap && (c.Reflective? ==> depth + 1 <= cfg.maxDepth)
            && forall j :: 0 <= j < |fields| ==> FieldAdmitted(c, fields, vals, j, cfg, Inner(c, depth))
  {
    hide StructAt, Flatten, Mentions, Admits, Carries, FieldAdmitted, Head;
    var w := StructTree(fields, vals);
    assert fields[0..] == fields && vals[0..] == vals;
    OwnPairs(c, fields, vals, 0, cfg, Inner(c, depth));
    KidsInOrder(fields, vals, 0);
    var _ := HeadField(Kind.Map, CountOf(fields, vals));
    StructRestored(c, fields, vals, Zeros(fields), w, data, pos, cfg, depth);
    forall j | 0 <= j < |fields| ensures Mentions(fields, w.kids, j) || Zeros(fields)[j] == vals[j] {
      assert !IsWritten(fields[j], vals[j]) ==> vals[j] == Zero(fields[j].kind);
    }
  }
}
