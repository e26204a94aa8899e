/** `EncodeValue` against `Decode`: round trips, and re-encoding as a canonical form. */
module Canonical {
  import opened Bytes
  import opened Format
  import opened Wire
  import opened Values
  import opened Grammar
  import opened Encoding

  /** What `Decode` returns, windows replaced by their contents. */
  ghost function DecodeOf(data: bytes, pos: nat, cfg: Config, depth: int): Res<Value<bytes>>
    requires pos <= |data|
  {
    match Parse(ValueMode, data, pos, cfg, depth)
    case Fail(e, p) => Fail(e, p)
    case Ok(w, p) => ParseExactly(ValueMode, data, pos, cfg, depth, w, p); Ok(Denote(w), p)
  }

  // ---- lengths and limits across encoding ----

  lemma {:induction false} LegalEncodable(w: Wire)
    requires Legal(w)
    ensures Encodable(Denote(w))
    decreases w, 1
  {
    PowValues();
    if w.Node? {
      if w.Shape().kind.Arr? { LegalEncodableAll(w.kids); } else { LegalEncodablePairs(w.kids); }
    }
  }

  lemma {:induction false} LegalEncodableAll(ws: seq<Wire>)
    requires LegalAll(ws)
    ensures EncodableAll(DenoteAll(ws))
    decreases ws, 0
  {
    if ws != [] {
      LegalEncodable(ws[0]);
      LegalEncodableAll(ws[1..]);
      assert DenoteAll(ws)[1..] == DenoteAll(ws[1..]);
    }
  }

  lemma {:induction false} LegalEncodablePairs(ws: seq<Wire>)
    requires LegalAll(ws) && |ws| % 2 == 0
    ensures EncodablePairs(DenotePairs(ws))
    decreases ws, 0
  {
    if ws != [] {
      UnfoldPairs(ws);
      PowValues();
      LegalEncodable(ws[1]);
      LegalEncodablePairs(ws[2..]);
    }
  }

  lemma SplitPair(ws: seq<Wire>)
    requires |ws| >= 2
    ensures ws == [ws[0]] + ([ws[1]] + ws[2..])
  {
  }

  lemma LegalPair(a: Wire, b: Wire, rest: seq<Wire>)
    ensures LegalAll([a] + ([b] + rest)) <==> Legal(a) && Legal(b) && LegalAll(rest)
    ensures FlattenAll([a] + ([b] + rest)) == Flatten(a) + (Flatten(b) + FlattenAll(rest))
  {
    ConsAll(b, rest);
    ConsAll(a, [b] + rest);
  }

  /** The first pair of a map's children. */
  lemma UnfoldPairs(ws: seq<Wire>)
    requires LegalAll(ws) && |ws| % 2 == 0 && ws != []
    ensures Legal(ws[0]) && Legal(ws[1]) && LegalAll(ws[2..])
    ensures DenotePairs(ws)[0] == KV(KeyOf(ws[0]), Denote(ws[1])) && DenotePairs(ws)[1..] == DenotePairs(ws[2..])
  {
    assert LegalAll(ws[1..]) && ws[1..][1..] == ws[2..];
  }

  lemma UnfoldFlatten(ws: seq<Wire>)
    requires |ws| >= 2
    ensures FlattenAll(ws) == Flatten(ws[0]) + (Flatten(ws[1]) + FlattenAll(ws[2..]))
  {
    assert ws[1..][1..] == ws[2..];
    assert FlattenAll(ws[1..]) == Flatten(ws[1]) + FlattenAll(ws[2..]);
  }

  lemma UnfoldFits(m: Mode, ws: seq<Wire>, cfg: Config, depth: int)
    requires |ws| % 2 == 0 && ws != []
    ensures FitsAll(m, ws, true, cfg, depth)
       <==> && Fits(m, ws[0], cfg, depth) && (!m.ValueMode? ==> IsStr(ws[0].format))
            && Fits(m, ws[1], cfg, depth) && FitsAll(m, ws[2..], true, cfg, depth)
  {
    SplitPair(ws);
    ConsFits(m, ws[0], [ws[1]] + ws[2..], true, cfg, depth);
    ConsFits(m, ws[1], ws[2..], true, cfg, depth);
  }

  lemma {:induction false} FitsCanon(v: Value<bytes>, cfg: Config, depth: int)
    ensures Fits(ValueMode, Canon(v), cfg, depth) <==> Within(v, cfg, depth)
    decreases v, 1
  {
    hide BE, UnBE, Legal;
    match v
    case Str(s) => var _ := HeadField(Kind.Str, |s|);
    case Bin(s) => var _ := HeadField(Kind.Bin, |s|);
    case Ext(_, s) => var _ := HeadField(Kind.Ext, |s|);
    case Array(vs) => var _ := HeadField(Arr, |vs|); FitsCanonAll(vs, cfg, depth + 1);
    case Map(kvs) => var _ := HeadField(Kind.Map, |kvs|); FitsCanonPairs(kvs, cfg, depth + 1);
    case _ => CanonScalar(v);
  }

  lemma {:induction false} FitsCanonAll(vs: seq<Value<bytes>>, cfg: Config, depth: int)
    ensures FitsAll(ValueMode, CanonAll(vs), false, cfg, depth) <==> WithinAll(vs, cfg, depth)
    decreases vs, 0
  {
    if vs != [] {
      FitsCanon(vs[0], cfg, depth);
      FitsCanonAll(vs[1..], cfg, depth);
      ConsFits(ValueMode, Canon(vs[0]), CanonAll(vs[1..]), false, cfg, depth);
    }
  }

  lemma {:induction false} FitsCanonPairs(kvs: seq<KV<bytes>>, cfg: Config, depth: int)
    ensures FitsAll(ValueMode, CanonPairs(kvs), true, cfg, depth) <==> WithinPairs(kvs, cfg, depth)
    decreases kvs, 0
  {
    if kvs != [] {
      var key, value, rest := CanonStr(KeyBytes(kvs[0].key)), CanonKV(kvs[0]), CanonPairs(kvs[1..]);
      FitsCanonKV(kvs[0], cfg, depth);
      FitsCanonPairs(kvs[1..], cfg, depth);
      ConsFits(ValueMode, key, [value] + rest, true, cfg, depth);
      ConsFits(ValueMode, value, rest, true, cfg, depth);
    }
  }

  lemma {:induction false} FitsCanonKV(kv: KV<bytes>, cfg: Config, depth: int)
    ensures Fits(ValueMode, CanonStr(KeyBytes(kv.key)), cfg, depth) <==> |KeyBytes(kv.key)| <= cfg.maxStr
    ensures Fits(ValueMode, CanonKV(kv), cfg, depth) <==> WithinKV(kv, cfg, depth)
    decreases kv, 2
  {
    var _ := HeadField(Kind.Str, |KeyBytes(kv.key)|);
    FitsCanon(kv.value, cfg, depth);
  }

  /** A map that is not empty, anywhere in the value. */
  predicate HasPairs(v: Value<bytes>)
    decreases v, 1
  {
    (v.Array? && AnyHasPairs(v.items)) || (v.Map? && v.pairs != [])
  }

  predicate AnyHasPairs(vs: seq<Value<bytes>>)
    decreases vs, 0
  {
    vs != [] && (HasPairs(vs[0]) || AnyHasPairs(vs[1..]))
  }

  /** The limits that admit a tree admit what it means, but for the empty key that a dropped one is written as. */
  lemma {:induction false} FitsWithin(w: Wire, cfg: Config, depth: int)
    requires Legal(w) && Fits(ValueMode, w, cfg, depth)
    ensures Within(Denote(w), cfg, depth) <==> cfg.maxStr >= 0 || !HasPairs(Denote(w))
    decreases w, 1
  {
    if w.Node? {
      if w.Shape().kind.Arr? { FitsWithinAll(w.kids, cfg, depth + 1); }
      else if cfg.maxStr >= 0 { FitsWithinPairs(w.kids, cfg, depth + 1); }
    }
  }

  lemma {:induction false} FitsWithinAll(ws: seq<Wire>, cfg: Config, depth: int)
    requires LegalAll(ws) && FitsAll(ValueMode, ws, false, cfg, depth)
    ensures WithinAll(DenoteAll(ws), cfg, depth) <==> cfg.maxStr >= 0 || !AnyHasPairs(DenoteAll(ws))
    decreases ws, 0
  {
    if ws != [] {
      FitsWithin(ws[0], cfg, depth);
      FitsWithinAll(ws[1..], cfg, depth);
      assert DenoteAll(ws)[1..] == DenoteAll(ws[1..]);
    }
  }

  lemma {:induction false} FitsWithinPairs(ws: seq<Wire>, cfg: Config, depth: int)
    requires LegalAll(ws) && |ws| % 2 == 0 && FitsAll(ValueMode, ws, true, cfg, depth) && cfg.maxStr >= 0
    ensures WithinPairs(DenotePairs(ws), cfg, depth)
    decreases ws, 0
  {
    if ws != [] {
      UnfoldPairs(ws);
      UnfoldFits(ValueMode, ws, cfg, depth);
      FitsWithin(ws[1], cfg, depth);
      FitsWithinPairs(ws[2..], cfg, depth);
    }
  }

  // ---- normalisation ----

  lemma {:induction false} NormSame(v: Value<bytes>)
    ensures Canon(Norm(v)) == Canon(v) && Norm(Norm(v)) == Norm(v) && (Encodable(Norm(v)) <==> Encodable(v))
    decreases v, 1
  {
    match v
    case Array(vs) => NormSameAll(vs);
    case Map(kvs) => NormSamePairs(kvs);
    case _ =>
  }

  lemma {:induction false} NormSameAll(vs: seq<Value<bytes>>)
    ensures CanonAll(NormAll(vs)) == CanonAll(vs) && NormAll(NormAll(vs)) == NormAll(vs)
    ensures EncodableAll(NormAll(vs)) <==> EncodableAll(vs)
    decreases vs, 0
  {
    if vs != [] {
      NormSame(vs[0]);
      NormSameAll(vs[1..]);
      assert NormAll(vs)[1..] == NormAll(vs[1..]);
    }
  }

  lemma {:induction false} NormSamePairs(kvs: seq<KV<bytes>>)
    ensures CanonPairs(NormPairs(kvs)) == CanonPairs(kvs) && NormPairs(NormPairs(kvs)) == NormPairs(kvs)
    ensures EncodablePairs(NormPairs(kvs)) <==> EncodablePairs(kvs)
    decreases kvs, 0
  {
    if kvs != [] {
      NormSameKV(kvs[0]);
      NormSamePairs(kvs[1..]);
      assert NormPairs(kvs)[1..] == NormPairs(kvs[1..]);
    }
  }

  lemma {:induction false} NormSameKV(kv: KV<bytes>)
    ensures CanonKV(NormKV(kv)) == CanonKV(kv) && NormKV(NormKV(kv)) == NormKV(kv)
    ensures EncodableKV(NormKV(kv)) <==> EncodableKV(kv)
    decreases kv, 2
  {
    NormSame(kv.value);
  }

  // ---- what normalisation keeps and what it changes ----

  /** No non-negative `TypeInt` and no missing key, anywhere. */
  predicate Normal(v: Value<bytes>)
    decreases v, 1
  {
    match v
    case Int(i) => i < 0
    case Array(vs) => forall j :: 0 <= j < |vs| ==> Normal(vs[j])
    case Map(kvs) => forall j :: 0 <= j < |kvs| ==> kvs[j].key.Some? && NormalPair(kvs[j])
    case _ => true
  }

  predicate NormalPair(kv: KV<bytes>)
    decreases kv, 2
  {
    Normal(kv.value)
  }

  /** The same up to the tag of whole numbers and to keys that are missing in v and empty in u. */
  predicate SameUpToTags(v: Value<bytes>, u: Value<bytes>)
    decreases v, 1
  {
    match v
    case Int(i) => (u.Int? && u.i == i) || (u.Uint? && u.u == i)
    case Uint(n) => (u.Int? && u.i == n) || (u.Uint? && u.u == n)
    case Array(vs) => u.Array? && |u.items| == |vs| && forall j :: 0 <= j < |vs| ==> SameUpToTags(vs[j], u.items[j])
    case Map(kvs) =>
      && u.Map? && |u.pairs| == |kvs|
      && forall j :: 0 <= j < |kvs| ==> KeyBytes(u.pairs[j].key) == KeyBytes(kvs[j].key) && SamePair(kvs[j], u.pairs[j])
    case _ => u == v
  }

  predicate SamePair(kv: KV<bytes>, lw: KV<bytes>)
    decreases kv, 2
  {
    SameUpToTags(kv.value, lw.value)
  }

  /** `Norm` is the one normal value that is the same up to tags. */
  lemma {:induction false} NormMeans(v: Value<bytes>, u: Value<bytes>)
    ensures u == Norm(v) <==> SameUpToTags(v, u) && Normal(u)
    decreases v, 1
  {
    match v
    case Array(vs) =>
      forall j | 0 <= j < |vs| ensures NormAll(vs)[j] == Norm(vs[j]) { NormAt(vs, j); }
      forall j | 0 <= j < |vs| ensures SameUpToTags(vs[j], NormAll(vs)[j]) && Normal(NormAll(vs)[j]) {
        NormMeans(vs[j], NormAll(vs)[j]);
      }
      if SameUpToTags(v, u) && Normal(u) {
        forall j | 0 <= j < |vs| ensures u.items[j] == NormAll(vs)[j] { NormMeans(vs[j], u.items[j]); }
        assert u.items == NormAll(vs);
      }
    case Map(kvs) =>
      forall j | 0 <= j < |kvs| ensures NormPairs(kvs)[j] == NormKV(kvs[j]) { NormPairAt(kvs, j); }
      forall j | 0 <= j < |kvs| ensures SamePair(kvs[j], NormPairs(kvs)[j]) && NormalPair(NormPairs(kvs)[j]) {
        NormPairMeans(kvs[j], NormPairs(kvs)[j]);
      }
      if SameUpToTags(v, u) && Normal(u) {
        forall j | 0 <= j < |kvs| ensures u.pairs[j] == NormPairs(kvs)[j] { NormPairMeans(kvs[j], u.pairs[j]); }
        assert u.pairs == NormPairs(kvs);
      }
    case _ =>
  }

  lemma {:induction false} NormPairMeans(kv: KV<bytes>, lw: KV<bytes>)
    ensures lw == NormKV(kv) <==>
            lw.key.Some? && KeyBytes(lw.key) == KeyBytes(kv.key) && SamePair(kv, lw) && NormalPair(lw)
    decreases kv, 2
  {
    NormMeans(kv.value, lw.value);
  }

  lemma {:induction false} NormAt(vs: seq<Value<bytes>>, j: nat)
    requires j < |vs|
    ensures NormAll(vs)[j] == Norm(vs[j])
  {
    if j > 0 { NormAt(vs[1..], j - 1); }
  }

  lemma {:induction false} NormPairAt(kvs: seq<KV<bytes>>, j: nat)
    requires j < |kvs|
    ensures NormPairs(kvs)[j] == NormKV(kvs[j])
  {
    if j > 0 { NormPairAt(kvs[1..], j - 1); }
  }

  // ---- the encoding is the shortest spelling ----

  lemma {:induction false} CanonShortest(w: Wire)
    requires Legal(w)
    ensures |Enc(Denote(w))| <= |Flatten(w)|
    decreases w, 1
  {
    match w.Shape()
    case Scalar(_) => CanonScalarShortest(w);
    case Counted(kind, field) =>
      if w.Node? {
        if kind.Arr? { CanonShortestAll(w.kids); } else { CanonShortestPairs(w.kids); }
      }
      var v := Canon(Denote(w));
      LegalEncodable(w);
      HeaderNoLonger(kind, field, Count(w));
      assert v.Shape() == Counted(kind, HeadField(kind, Count(w))) && |Payload(v)| <= |Payload(w)|;
      SizeOf(w);
      SizeOf(v);
  }

  lemma HeaderNoLonger(kind: Kind, field: CountField, n: nat)
    requires Holds(field, n) && exists f: byte :: ShapeOf(f) == Counted(kind, field)
    ensures Width(HeadField(kind, n)) <= Width(field)
  {
    PowValues();
    var f: byte :| ShapeOf(f) == Counted(kind, field);
    HeaderShortest(kind, n, f);
  }

  lemma SizeOf(w: Wire)
    ensures |Flatten(w)| == 1 + (if w.Shape().Counted? then Width(w.Shape().field) else 0) + |Payload(w)|
  {
  }

  lemma CanonScalarShortest(w: Wire)
    requires Legal(w) && w.Shape().Scalar?
    ensures |Enc(Denote(w))| <= |Flatten(w)|
  {
    var v := Denote(w);
    PowValues();
    CanonScalar(v);
    SizeOf(w);
    SizeOf(Canon(v));
    if v.Int? && v.i < 0 { CanonIntSize(v.i, |w.payload|); }
  }

  lemma CanonIntSize(i: int64, size: nat)
    requires i < 0 && (size == 0 ==> i >= -32) && (size > 0 ==> i >= 0 - Half(size))
    requires size == 0 || size == 1 || size == 2 || size == 4 || size == 8
    ensures CanonInt(i).Leaf? && |CanonInt(i).payload| <= size
  {
    PowValues();
  }

  lemma {:induction false} CanonShortestAll(ws: seq<Wire>)
    requires LegalAll(ws)
    ensures |FlattenAll(CanonAll(DenoteAll(ws)))| <= |FlattenAll(ws)|
    decreases ws, 0
  {
    if ws != [] {
      CanonShortest(ws[0]);
      CanonShortestAll(ws[1..]);
      assert DenoteAll(ws)[1..] == DenoteAll(ws[1..]);
      ConsAll(Canon(Denote(ws[0])), CanonAll(DenoteAll(ws[1..])));
    }
  }

  lemma {:induction false} CanonShortestPairs(ws: seq<Wire>)
    requires LegalAll(ws) && |ws| % 2 == 0
    ensures |FlattenAll(CanonPairs(DenotePairs(ws)))| <= |FlattenAll(ws)|
    decreases ws, 0
  {
    if ws != [] {
      UnfoldPairs(ws);
      UnfoldFlatten(ws);
      var kv, rest := DenotePairs(ws)[0], CanonPairs(DenotePairs(ws[2..]));
      var key, value := CanonStr(KeyBytes(kv.key)), CanonKV(kv);
      CanonKeyShortest(ws[0]);
      CanonShortest(ws[1]);
      CanonShortestPairs(ws[2..]);
      ConsAll(value, rest);
      ConsAll(key, [value] + rest);
    }
  }

  lemma CanonKeyShortest(w: Wire)
    requires Legal(w)
    ensures |Flatten(CanonStr(KeyBytes(KeyOf(w))))| <= |Flatten(w)|
  {
    SizeOf(w);
    SizeOf(CanonStr(KeyBytes(KeyOf(w))));
    PowValues();
    if IsStr(w.format) { HeaderShortest(Kind.Str, |w.payload|, w.format); }
  }

  // ---- main results ----

  /**
   Round trip in context: wherever the encoding of v stands, decoding it there returns the normalised
   v and stops right behind it - exactly when every length fits its count and v is within the limits.
   */
  lemma RoundTrip(v: Value<bytes>, data: bytes, pos: nat, cfg: Config, depth: int)
    requires At(data, pos, Enc(v))
    ensures DecodeOf(data, pos, cfg, depth) == Ok(Norm(v), pos + |Enc(v)|)
       <==> Encodable(v) && Within(v, cfg, depth)
  {
    hide At, Parse;
    var end := pos + |Enc(v)|;
    if Encodable(v) {
      CanonMeans(v);
      FitsCanon(v, cfg, depth);
      ParseExactly(ValueMode, data, pos, cfg, depth, Canon(v), end);
      if DecodeOf(data, pos, cfg, depth) == Ok(Norm(v), end) { ReadsBack(v, data, pos, cfg, depth); }
    } else if DecodeOf(data, pos, cfg, depth) == Ok(Norm(v), end) {
      var w := Parse(ValueMode, data, pos, cfg, depth).value;
      ParseExactly(ValueMode, data, pos, cfg, depth, w, end);
      LegalEncodable(w);
      NormSame(v);
    }
  }

  lemma ReadsBack(v: Value<bytes>, data: bytes, pos: nat, cfg: Config, depth: int)
    requires At(data, pos, Enc(v)) && Encodable(v) && DecodeOf(data, pos, cfg, depth) == Ok(Norm(v), pos + |Enc(v)|)
    ensures Parse(ValueMode, data, pos, cfg, depth) == Ok(Canon(v), pos + |Enc(v)|)
  {
    hide Canon, CanonStr, Flatten, FlattenAll, Body;
    var r := Parse(ValueMode, data, pos, cfg, depth);
    ParseExactly(ValueMode, data, pos, cfg, depth, r.value, r.pos);
    CanonMeans(v);
    AtSlice(data, pos, Flatten(r.value));
    AtSlice(data, pos, Enc(v));
    UniqueReading(r.value, [], Canon(v), []);
  }

  /**
   Canonicalisation: re-encoding whatever `Decode` accepted is no longer than what was read and does not change
   any more. Anywhere under the same limits it is accepted as the normalised value, exactly when the string
   limit is not negative or the value has no pairs.
   */
  lemma Canonicalisation(data: bytes, pos: nat, cfg: Config, depth: int, v: Value<bytes>, end: nat)
    requires pos <= |data| && DecodeOf(data, pos, cfg, depth) == Ok(v, end)
    ensures |Enc(v)| <= end - pos
    ensures forall data': bytes, pos': nat | At(data', pos', Enc(v)) ::
              DecodeOf(data', pos', cfg, depth) == Ok(Norm(v), pos' + |Enc(v)|) <==> cfg.maxStr >= 0 || !HasPairs(v)
    ensures Enc(Norm(v)) == Enc(v) && Norm(Norm(v)) == Norm(v)
  {
    var w := Parse(ValueMode, data, pos, cfg, depth).value;
    ParseExactly(ValueMode, data, pos, cfg, depth, w, end);
    CanonShortest(w);
    LegalEncodable(w);
    FitsWithin(w, cfg, depth);
    NormSame(v);
    forall data': bytes, pos': nat | At(data', pos', Enc(v))
      ensures DecodeOf(data', pos', cfg, depth) == Ok(Norm(v), pos' + |Enc(v)|) <==> cfg.maxStr >= 0 || !HasPairs(v)
    {
      RoundTrip(v, data', pos', cfg, depth);
    }
  }

  /** The map 1 -> nil: one pair whose key is not a string. */
  const TINY: Wire := Node(0x81, [Leaf(1, []), Leaf(NIL, [])])

  lemma TinyMeans()
    ensures Legal(TINY) && Denote(TINY) == Value.Map([KV(None, Nil)])
  {
    LegalPair(Leaf(1, []), Leaf(NIL, []), []);
    SplitPair(TINY.kids);
    UnfoldPairs(TINY.kids);
  }

  /** The condition can fail: under a negative string limit a map is accepted whose re-encoding is refused. */
  lemma NegativeStringLimit()
    ensures exists data: bytes, cfg, v ::
              && DecodeOf(data, 0, cfg, 0) == Ok(v, |data|) && cfg.maxStr == -1
              && DecodeOf(Enc(v), 0, cfg, 0) != Ok(Norm(v), |Enc(v)|)
  {
    hide Parse, Denote, Encodable, Flatten, FlattenAll, Body, Norm, BE, UnBE;
    var cfg := Config(-1, 9, 9, 9, 9, 9);
    var data := Flatten(TINY);
    var v := Value.Map([KV(None, Nil)]);
    TinyMeans();
    UnfoldFits(ValueMode, TINY.kids, cfg, 1);
    AtSlice(data, 0, data);
    ParseExactly(ValueMode, data, 0, cfg, 0, TINY, |data|);
    assert DecodeOf(data, 0, cfg, 0) == Ok(v, |data|);
    RoundTrip(v, Enc(v), 0, cfg, 0);
  }
}
