/** The bytes `EncodeValue` chooses, and how they relate to the parsers. */
module Encoding {
  import opened Bytes
  import opened Format
  import opened Wire
  import opened Values
  import opened Grammar

  const LENGTHS: int := 0x1_0000_0000

  /** The format byte the encoder picks for a count. */
  function Head(kind: Kind, n: nat): byte {
    match kind
    case Str => if n <= 31 then FIXSTR_PREFIX + n else if n <= 0xff then STR8 else if n <= 0xffff then STR16 else STR32
    case Bin => if n <= 0xff then BIN8 else if n <= 0xffff then BIN16 else BIN32
    case Arr => if n <= 15 then FIXARRAY_PREFIX + n else if n <= 0xffff then ARRAY16 else ARRAY32
    case Map => if n <= 15 then FIXMAP_PREFIX + n else if n <= 0xffff then MAP16 else MAP32
    case Ext =>
      if n == 1 then FIXEXT1 else if n == 2 then FIXEXT2 else if n == 4 then FIXEXT4
      else if n == 8 then FIXEXT8 else if n == 16 then FIXEXT16
      else if n <= 0xff then EXT8 else if n <= 0xffff then EXT16 else EXT32
  }

  /** The field that stores the count behind `Head`. */
  function HeadField(kind: Kind, n: nat): (field: CountField)
    ensures ShapeOf(Head(kind, n)) == Counted(kind, field)
    ensures Holds(field, n) <==> n < LENGTHS
  {
    PowValues();
    ShapeOf(Head(kind, n)).field
  }

  function Header(kind: Kind, n: nat): bytes {
    [Head(kind, n)] + CountBytes(HeadField(kind, n), n)
  }

  /** No header that can hold the count is shorter. */
  lemma HeaderShortest(kind: Kind, n: nat, f: byte)
    requires n < LENGTHS && ShapeOf(f).Counted? && ShapeOf(f).kind == kind && Holds(ShapeOf(f).field, n)
    ensures Width(HeadField(kind, n)) <= Width(ShapeOf(f).field)
  {
    PowValues();
  }

  function CanonUint(u: uint64): Wire {
    if u <= 127 then Leaf(u, [])
    else if u <= 0xff then Leaf(UINT8, BE(1, u))
    else if u <= 0xffff then Leaf(UINT16, BE(2, u))
    else if u <= 0xffff_ffff then Leaf(UINT32, BE(4, u))
    else Leaf(UINT64, BE(8, u))
  }

  function CanonInt(i: int64): Wire {
    if i >= 0 then CanonUint(i)
    else if i >= -32 then Leaf(i + 0x100, [])
    else if i >= -0x80 then Leaf(INT8, BE(1, Unsigned(1, i)))
    else if i >= -0x8000 then Leaf(INT16, BE(2, Unsigned(2, i)))
    else if i >= -0x8000_0000 then Leaf(INT32, BE(4, Unsigned(4, i)))
    else Leaf(INT64, BE(8, Unsigned(8, i)))
  }

  function KeyBytes(key: Option<bytes>): bytes {
    match key case None => [] case Some(s) => s
  }

  /** The tree `EncodeValue` writes. */
  function Canon(v: Value<bytes>): Wire
    decreases v, 1
  {
    match v
    case Nil => Leaf(NIL, [])
    case Bool(b) => Leaf(if b then TRUE else FALSE, [])
    case Int(i) => CanonInt(i)
    case Uint(u) => CanonUint(u)
    case Float32(b) => Leaf(FLOAT32, BE(4, b))
    case Float64(b) => Leaf(FLOAT64, BE(8, b))
    case Str(s) => CanonStr(s)
    case Bin(s) => Leaf(Head(Kind.Bin, |s|), s)
    case Array(vs) => Node(Head(Arr, |vs|), CanonAll(vs))
    case Map(kvs) => Node(Head(Kind.Map, |kvs|), CanonPairs(kvs))
    case Ext(t, d) => PowValues(); Leaf(Head(Kind.Ext, |d|), [Unsigned(1, t)] + d)
  }

  function CanonStr(s: bytes): Wire {
    Leaf(Head(Kind.Str, |s|), s)
  }

  function CanonAll(vs: seq<Value<bytes>>): (ws: seq<Wire>)
    ensures |ws| == |vs|
    decreases vs, 0
  {
    if vs == [] then [] else [Canon(vs[0])] + CanonAll(vs[1..])
  }

  function CanonPairs(kvs: seq<KV<bytes>>): (ws: seq<Wire>)
    ensures |ws| == 2 * |kvs|
    decreases kvs, 0
  {
    if kvs == [] then [] else [CanonStr(KeyBytes(kvs[0].key))] + ([CanonKV(kvs[0])] + CanonPairs(kvs[1..]))
  }

  function CanonKV(kv: KV<bytes>): Wire
    decreases kv, 2
  {
    Canon(kv.value)
  }

  function Enc(v: Value<bytes>): bytes { Flatten(Canon(v)) }

  // ---- what survives a round trip ----

  /** Every length fits the 32-bit count the format has room for. */
  predicate Encodable(v: Value<bytes>)
    decreases v, 1
  {
    match v
    case Str(s) => |s| < LENGTHS
    case Bin(s) => |s| < LENGTHS
    case Ext(_, s) => |s| < LENGTHS
    case Array(vs) => |vs| < LENGTHS && EncodableAll(vs)
    case Map(kvs) => |kvs| < LENGTHS && EncodablePairs(kvs)
    case _ => true
  }

  predicate EncodableAll(vs: seq<Value<bytes>>)
    decreases vs, 0
  {
    vs == [] || (Encodable(vs[0]) && EncodableAll(vs[1..]))
  }

  predicate EncodablePairs(kvs: seq<KV<bytes>>)
    decreases kvs, 0
  {
    kvs == [] || (|KeyBytes(kvs[0].key)| < LENGTHS && EncodableKV(kvs[0]) && EncodablePairs(kvs[1..]))
  }

  predicate EncodableKV(kv: KV<bytes>)
    decreases kv, 2
  {
    Encodable(kv.value)
  }

  /** The limits of a configuration, on values. */
  predicate Within(v: Value<bytes>, cfg: Config, depth: int)
    decreases v, 1
  {
    match v
    case Str(s) => |s| <= cfg.maxStr
    case Bin(s) => |s| <= cfg.maxBin
    case Ext(_, s) => |s| <= cfg.maxExt
    case Array(vs) => |vs| <= cfg.maxArr && depth + 1 <= cfg.maxDepth && WithinAll(vs, cfg, depth + 1)
    case Map(kvs) => |kvs| <= cfg.maxMap && depth + 1 <= cfg.maxDepth && WithinPairs(kvs, cfg, depth + 1)
    case _ => true
  }

  predicate WithinAll(vs: seq<Value<bytes>>, cfg: Config, depth: int)
    decreases vs, 0
  {
    vs == [] || (Within(vs[0], cfg, depth) && WithinAll(vs[1..], cfg, depth))
  }

  predicate WithinPairs(kvs: seq<KV<bytes>>, cfg: Config, depth: int)
    decreases kvs, 0
  {
    kvs == [] ||
    (|KeyBytes(kvs[0].key)| <= cfg.maxStr && WithinKV(kvs[0], cfg, depth) && WithinPairs(kvs[1..], cfg, depth))
  }

  predicate WithinKV(kv: KV<bytes>, cfg: Config, depth: int)
    decreases kv, 2
  {
    Within(kv.value, cfg, depth)
  }

  /** A non-negative `TypeInt` comes back as `TypeUint`, a nil key as an empty one. */
  function Norm(v: Value<bytes>): Value<bytes>
    decreases v, 1
  {
    match v
    case Int(i) => if i >= 0 then Uint(i) else v
    case Array(vs) => Array(NormAll(vs))
    case Map(kvs) => Value.Map(NormPairs(kvs))
    case _ => v
  }

  function NormAll(vs: seq<Value<bytes>>): (us: seq<Value<bytes>>)
    ensures |us| == |vs|
    decreases vs, 0
  {
    if vs == [] then [] else [Norm(vs[0])] + NormAll(vs[1..])
  }

  function NormPairs(kvs: seq<KV<bytes>>): (us: seq<KV<bytes>>)
    ensures |us| == |kvs|
    decreases kvs, 0
  {
    if kvs == [] then [] else [NormKV(kvs[0])] + NormPairs(kvs[1..])
  }

  function NormKV(kv: KV<bytes>): KV<bytes>
    decreases kv, 2
  {
    KV(Some(KeyBytes(kv.key)), Norm(kv.value))
  }

  lemma CanonScalar(v: Value<bytes>)
    requires v.Nil? || v.Bool? || v.Int? || v.Uint? || v.Float32? || v.Float64?
    ensures Legal(Canon(v)) && Denote(Canon(v)) == Norm(v) && Canon(v).Leaf? && Canon(v).Shape().Scalar?
  {
    PowValues();
    match v
    case Nil => case Bool(_) =>
    case Uint(u) => CanonUintMeans(u);
    case Int(i) => if i >= 0 { CanonUintMeans(i); } else { CanonIntMeans(i); }
    case Float32(b) => UnBEofBE(4, b);
    case Float64(b) => UnBEofBE(8, b);
  }

  lemma CanonUintMeans(u: uint64)
    ensures Legal(CanonUint(u)) && Denote(CanonUint(u)) == Uint(u) && CanonUint(u).Shape().Scalar?
  {
    PowValues();
    if u <= 127 { }
    else if u <= 0xff { UnBEofBE(1, u); }
    else if u <= 0xffff { UnBEofBE(2, u); }
    else if u <= 0xffff_ffff { UnBEofBE(4, u); }
    else { UnBEofBE(8, u); }
  }

  lemma CanonIntMeans(i: int64)
    requires i < 0
    ensures Legal(CanonInt(i)) && Denote(CanonInt(i)) == Int(i) && CanonInt(i).Shape().Scalar?
  {
    PowValues();
    if i >= -32 { }
    else if i >= -0x80 { UnBEofBE(1, Unsigned(1, i)); SignedOfUnsigned(1, i); }
    else if i >= -0x8000 { UnBEofBE(2, Unsigned(2, i)); SignedOfUnsigned(2, i); }
    else if i >= -0x8000_0000 { UnBEofBE(4, Unsigned(4, i)); SignedOfUnsigned(4, i); }
    else { UnBEofBE(8, Unsigned(8, i)); SignedOfUnsigned(8, i); }
  }

  /** The encoder writes legal trees that mean the normalised value. */
  lemma {:induction false} CanonMeans(v: Value<bytes>)
    requires Encodable(v)
    ensures Legal(Canon(v)) && Denote(Canon(v)) == Norm(v)
    decreases v, 1
  {
    match v
    case Str(s) => var _ := HeadField(Kind.Str, |s|);
    case Bin(s) => var _ := HeadField(Kind.Bin, |s|);
    case Ext(t, d) => var _ := HeadField(Kind.Ext, |d|); PowValues(); SignedOfUnsigned(1, t);
    case Array(vs) => var _ := HeadField(Arr, |vs|); CanonMeansAll(vs);
    case Map(kvs) => var _ := HeadField(Kind.Map, |kvs|); CanonMeansPairs(kvs);
    case _ => CanonScalar(v);
  }

  lemma {:induction false} CanonMeansAll(vs: seq<Value<bytes>>)
    requires EncodableAll(vs)
    ensures LegalAll(CanonAll(vs)) && DenoteAll(CanonAll(vs)) == NormAll(vs)
    decreases vs, 0
  {
    if vs != [] {
      CanonMeans(vs[0]);
      CanonMeansAll(vs[1..]);
      ConsAll(Canon(vs[0]), CanonAll(vs[1..]));
      assert CanonAll(vs)[1..] == CanonAll(vs[1..]);
    }
  }

  lemma {:induction false} CanonMeansPairs(kvs: seq<KV<bytes>>)
    requires EncodablePairs(kvs)
    ensures LegalAll(CanonPairs(kvs)) && DenotePairs(CanonPairs(kvs)) == NormPairs(kvs)
    decreases kvs, 0
  {
    if kvs != [] {
      var key := CanonStr(KeyBytes(kvs[0].key));
      var value := CanonKV(kvs[0]);
      var rest := CanonPairs(kvs[1..]);
      CanonMeansKV(kvs[0]);
      CanonMeansPairs(kvs[1..]);
      PairsOf(key, value, rest);
    }
  }

  lemma {:induction false} CanonMeansKV(kv: KV<bytes>)
    requires |KeyBytes(kv.key)| < LENGTHS && EncodableKV(kv)
    ensures Legal(CanonStr(KeyBytes(kv.key))) && KeyOf(CanonStr(KeyBytes(kv.key))) == Some(KeyBytes(kv.key))
    ensures Legal(CanonKV(kv)) && Denote(CanonKV(kv)) == Norm(kv.value)
    decreases kv, 2
  {
    var _ := HeadField(Kind.Str, |KeyBytes(kv.key)|);
    CanonMeans(kv.value);
  }

  lemma PairsOf(key: Wire, value: Wire, rest: seq<Wire>)
    requires Legal(key) && Legal(value) && LegalAll(rest) && |rest| % 2 == 0
    ensures LegalAll([key] + ([value] + rest))
    ensures DenotePairs([key] + ([value] + rest)) == [KV(KeyOf(key), Denote(value))] + DenotePairs(rest)
  {
    ConsAll(value, rest);
    ConsAll(key, [value] + rest);
    var ws := [key] + ([value] + rest);
    assert ws[1] == value && ws[2..] == rest;
  }
}
