/** Native values through `Encode` and back through `DecodeAny`, whatever order maps are iterated in. */
module NativeRoundTrip {
  import opened Bytes
  import opened Format
  import opened Wire
  import opened Values
  import opened Grammar
  import opened Encoding
  import opened Canonical
  import opened Natives

  /** w is a tree `Encode` may write for t: maps are written in any order of their keys. */
  ghost predicate Writes(t: Native, w: Wire)
    decreases t
  {
    match t
    case NNil => w == Canon(Nil)
    case NBool(b) => w == Canon(Bool(b))
    case NInt(i) => w == Canon(Int(i))
    case NUint(u) => w == Canon(Uint(u))
    case NFloat(b) => w == Canon(Float64(b))
    case NFloat32(b) => w == Canon(Float32(b))
    case NWidened(_) => false
    case NStr(s) => w == CanonStr(s)
    case NBin(s) => w == Canon(Value.Bin(s))
    case NArr(ts) =>
      && w.Node? && w.format == Head(Arr, |ts|) && |w.kids| == |ts|
      && forall i :: 0 <= i < |ts| ==> Writes(ts[i], w.kids[i])
    case NMap(m) =>
      && w.Node? && w.format == Head(Kind.Map, |m|) && |w.kids| == 2 * |m|
      && (forall i :: 0 <= i < |m| ==> WritesKey(m, w.kids, i) && Writes(m[Key(w.kids, i)], w.kids[2 * i + 1]))
      && (forall i, j :: 0 <= i < j < |m| ==> Key(w.kids, i) != Key(w.kids, j))
  }

  /** The i-th key among the children of a map. */
  function Key(ws: seq<Wire>, i: nat): bytes
    requires 2 * i < |ws|
  {
    match ws[2 * i] case Leaf(_, p) => p case Node(_, _) => []
  }

  ghost predicate WritesKey(m: map<bytes, Native>, ws: seq<Wire>, i: nat)
    requires 2 * i < |ws|
  {
    Key(ws, i) in m && ws[2 * i] == CanonStr(Key(ws, i))
  }

  /** Lengths fit their counts. */
  ghost predicate Storable(t: Native) {
    match t
    case NStr(s) => |s| < LENGTHS
    case NBin(s) => |s| < LENGTHS
    case NArr(ts) => |ts| < LENGTHS && forall i :: 0 <= i < |ts| ==> Storable(ts[i])
    case NMap(m) => |m| < LENGTHS && forall k | k in m :: |k| < LENGTHS && Storable(m[k])
    case _ => true
  }

  /** Lengths and nesting are within the limits. */
  ghost predicate Admitted(t: Native, cfg: Config, depth: int)
    decreases t
  {
    match t
    case NStr(s) => |s| <= cfg.maxStr
    case NBin(s) => |s| <= cfg.maxBin
    case NArr(ts) =>
      |ts| <= cfg.maxArr && depth + 1 <= cfg.maxDepth && forall i :: 0 <= i < |ts| ==> Admitted(ts[i], cfg, depth + 1)
    case NMap(m) =>
      && |m| <= cfg.maxMap && depth + 1 <= cfg.maxDepth
      && forall k | k in m :: |k| <= cfg.maxStr && Admitted(m[k], cfg, depth + 1)
    case _ => true
  }

  /** Unsigned values that fit come back signed, a float32 as the float64 it converts to. */
  ghost function Folded(t: Native): Native {
    match t
    case NFloat32(b) => NWidened(b)
    case NUint(u) => if u < 0x8000_0000_0000_0000 then NInt(u) else NUint(u)
    case NArr(ts) => NArr(seq(|ts|, i requires 0 <= i < |ts| => Folded(ts[i])))
    case NMap(m) => NMap(map k | k in m :: Folded(m[k]))
    case _ => t
  }

  // ---- sequences of trees, item by item ----

  lemma {:induction false} LegalAllFrom(ws: seq<Wire>)
    requires forall i :: 0 <= i < |ws| ==> Legal(ws[i])
    ensures LegalAll(ws)
  {
    if ws != [] { LegalAllFrom(ws[1..]); }
  }

  lemma {:induction false} FitsEach(m: Mode, ws: seq<Wire>, keyed: bool, cfg: Config, depth: int)
    ensures FitsAll(m, ws, keyed, cfg, depth)
       <==> forall i :: 0 <= i < |ws| ==>
         Fits(m, ws[i], cfg, depth) && (AtKey(keyed, |ws| - i) && !m.ValueMode? ==> IsStr(ws[i].format))
  {
    if ws != [] {
      var rest := ws[1..];
      FitsEach(m, rest, keyed, cfg, depth);
      assert forall i :: 1 <= i < |ws| ==>
        ws[i] == rest[i - 1] && AtKey(keyed, |ws| - i) == AtKey(keyed, |rest| - (i - 1));
      assert forall i :: 0 <= i < |rest| ==>
        rest[i] == ws[i + 1] && AtKey(keyed, |rest| - i) == AtKey(keyed, |ws| - (i + 1));
    }
  }

  lemma {:induction false} LegalAt(ws: seq<Wire>, i: nat)
    requires LegalAll(ws) && i < |ws|
    ensures Legal(ws[i])
  {
    if i > 0 { LegalAt(ws[1..], i - 1); }
  }

  lemma {:induction false} DenoteAt(ws: seq<Wire>, i: nat)
    requires LegalAll(ws) && i < |ws|
    ensures Legal(ws[i]) && DenoteAll(ws)[i] == Denote(ws[i])
  {
    LegalAt(ws, i);
    if i > 0 { DenoteAt(ws[1..], i - 1); }
  }

  lemma {:induction false} DenotePairAt(ws: seq<Wire>, i: nat)
    requires LegalAll(ws) && |ws| % 2 == 0 && 2 * i < |ws|
    ensures Legal(ws[2 * i + 1]) && DenotePairs(ws)[i] == KV(KeyOf(ws[2 * i]), Denote(ws[2 * i + 1]))
  {
    LegalAt(ws, 2 * i + 1);
    UnfoldPairs(ws);
    if i > 0 {
      DenotePairAt(ws[2..], i - 1);
      assert DenotePairs(ws)[i] == DenotePairs(ws)[1..][i - 1];
    }
  }

  // ---- what is written is legal and means the value ----

  lemma {:induction false} WritesWell(t: Native, w: Wire)
    requires Writes(t, w) && Storable(t)
    ensures Legal(w) && NativeOf(Denote(w)) == Folded(t)
    decreases t, 1
  {
    match t
    case NArr(_) => WritesArrayWell(t, w);
    case NMap(_) => WritesMapWell(t, w);
    case NStr(s) => var _ := HeadField(Kind.Str, |s|);
    case NBin(s) => var _ := HeadField(Kind.Bin, |s|);
    case NNil => CanonScalar(Nil);
    case NBool(b) => CanonScalar(Bool(b));
    case NInt(i) => CanonScalar(Int(i));
    case NUint(u) => CanonScalar(Uint(u));
    case NFloat(b) => CanonScalar(Float64(b));
    case NFloat32(b) => CanonScalar(Float32(b));
  }

  lemma {:induction false} WritesArrayWell(t: Native, w: Wire)
    requires t.NArr? && Writes(t, w) && Storable(t)
    ensures Legal(w) && NativeOf(Denote(w)) == Folded(t)
    decreases t, 0
  {
    var ts, ws := t.items, w.kids;
    forall i | 0 <= i < |ws| ensures Legal(ws[i]) && NativeOf(Denote(ws[i])) == Folded(ts[i]) {
      WritesWell(ts[i], ws[i]);
    }
    LegalAllFrom(ws);
    var field := HeadField(Arr, |ts|);
    var vs := DenoteAll(ws);
    forall i | 0 <= i < |ts| ensures NativeAll(vs)[i] == Folded(ts[i]) {
      DenoteAt(ws, i);
      NativeAt(vs, i);
    }
    assert Denote(w) == Array(vs);
    assert NativeAll(vs) == seq(|ts|, i requires 0 <= i < |ts| => Folded(ts[i]));
  }

  /** The i-th pair under a map is legal and means what m has under its key. */
  ghost predicate PairWell(m: map<bytes, Native>, ws: seq<Wire>, i: nat)
    requires 2 * i + 1 < |ws|
  {
    && Legal(ws[2 * i]) && Legal(ws[2 * i + 1])
    && KeyOf(ws[2 * i]) == Some(Key(ws, i)) && Key(ws, i) in m
    && NativeOf(Denote(ws[2 * i + 1])) == Folded(m[Key(ws, i)])
  }

  lemma KeyTree(k: bytes)
    requires |k| < LENGTHS
    ensures Legal(CanonStr(k)) && IsStr(CanonStr(k).format) && KeyOf(CanonStr(k)) == Some(k)
    ensures forall cfg: Config, depth: int :: Fits(AnyMode, CanonStr(k), cfg, depth) <==> |k| <= cfg.maxStr
  {
    var _ := HeadField(Kind.Str, |k|);
  }

  lemma {:induction false} WritesMapWell(t: Native, w: Wire)
    requires t.NMap? && Writes(t, w) && Storable(t)
    ensures Legal(w) && NativeOf(Denote(w)) == Folded(t)
    decreases t, 0
  {
    hide CanonStr, Legal, Denote, IsStr, KeyOf;
    var m, ws := t.entries, w.kids;
    forall i | 0 <= i < |m| ensures PairWell(m, ws, i) {
      KeyTree(Key(ws, i));
      WritesWell(m[Key(ws, i)], ws[2 * i + 1]);
    }
    MapTreeLegal(m, w);
    MapTreeMeans(m, w);
  }

  lemma MapTreeLegal(m: map<bytes, Native>, w: Wire)
    requires w.Node? && w.format == Head(Kind.Map, |m|) && |w.kids| == 2 * |m| && |m| < LENGTHS
    requires forall i :: 0 <= i < |m| ==> PairWell(m, w.kids, i)
    ensures Legal(w)
  {
    var ws := w.kids;
    forall i | 0 <= i < |ws| ensures Legal(ws[i]) {
      assert PairWell(m, ws, i / 2);
      assert i == 2 * (i / 2) || i == 2 * (i / 2) + 1;
    }
    LegalAllFrom(ws);
    var _ := HeadField(Kind.Map, |m|);
  }

  lemma MapTreeMeans(m: map<bytes, Native>, w: Wire)
    requires Legal(w) && w.Node? && w.format == Head(Kind.Map, |m|) && |w.kids| == 2 * |m|
    requires forall i :: 0 <= i < |m| ==> PairWell(m, w.kids, i)
    requires forall i, j :: 0 <= i < j < |m| ==> Key(w.kids, i) != Key(w.kids, j)
    ensures NativeOf(Denote(w)) == NMap(map k | k in m :: Folded(m[k]))
  {
    hide ShapeOf, NativePairs, IsStr;
    var _ := HeadField(Kind.Map, |m|);
    var keys, kvs := seq(|m|, i requires 0 <= i < |m| => Key(w.kids, i)), DenotePairs(w.kids);
    forall i | 0 <= i < |m|
      ensures KeyBytes(kvs[i].key) == keys[i] && keys[i] in m && NativeOf(kvs[i].value) == Folded(m[keys[i]])
    {
      assert PairWell(m, w.kids, i);
      DenotePairAt(w.kids, i);
    }
    MapReadsBack(m, keys, kvs);
    assert Denote(w) == Value.Map(kvs);
  }

  lemma MapReadsBack(m: map<bytes, Native>, keys: seq<bytes>, kvs: seq<KV<bytes>>)
    requires |kvs| == |keys| == |m|
    requires forall i :: 0 <= i < |m| ==>
      KeyBytes(kvs[i].key) == keys[i] && keys[i] in m && NativeOf(kvs[i].value) == Folded(m[keys[i]])
    requires forall i, j :: 0 <= i < j < |keys| ==> keys[i] != keys[j]
    ensures NativePairs(kvs) == map k | k in m :: Folded(m[k])
  {
    hide KeyBytes, NativePairs, NativeOf, Folded;
    var n := NativePairs(kvs);
    forall k | k in n ensures k in m && n[k] == Folded(m[k]) {
      LastWins(kvs, k);
      assert keys[LastIndex(kvs, k)] == k;
    }
    DistinctCover(keys, m.Keys);
    forall k | k in m ensures k in n {
      var i :| 0 <= i < |keys| && keys[i] == k;
      LastWins(kvs, k);
      assert KeyBytes(kvs[i].key) == k;
    }
  }

  /** As many distinct elements as the set has: every element occurs. */
  lemma {:induction false} DistinctCover<T>(xs: seq<T>, s: set<T>)
    requires |xs| == |s| && (forall i :: 0 <= i < |xs| ==> xs[i] in s)
    requires forall i, j :: 0 <= i < j < |xs| ==> xs[i] != xs[j]
    ensures forall x :: x in s ==> x in xs
  {
    if xs != [] {
      var last := xs[|xs| - 1];
      DistinctCover(xs[..|xs| - 1], s - {last});
      forall x | x in s ensures x in xs { if x != last { assert x in xs[..|xs| - 1]; } }
    }
  }

  // ---- what is written fits the limits exactly when the value does ----

  lemma {:induction false} WritesFits(t: Native, w: Wire, cfg: Config, depth: int)
    requires Writes(t, w) && Storable(t)
    ensures Fits(AnyMode, w, cfg, depth) <==> Admitted(t, cfg, depth)
    decreases t, 1
  {
    match t
    case NArr(ts) =>
      var _ := HeadField(Arr, |ts|);
      forall i | 0 <= i < |ts| ensures Fits(AnyMode, w.kids[i], cfg, depth + 1) <==> Admitted(ts[i], cfg, depth + 1) {
        WritesFits(ts[i], w.kids[i], cfg, depth + 1);
      }
      FitsEach(AnyMode, w.kids, false, cfg, depth + 1);
    case NMap(m) => WritesMapFits(t, w, cfg, depth);
    case NStr(s) => var _ := HeadField(Kind.Str, |s|);
    case NBin(s) => var _ := HeadField(Kind.Bin, |s|);
    case NNil => CanonScalar(Nil);
    case NBool(b) => CanonScalar(Bool(b));
    case NInt(i) => CanonScalar(Int(i));
    case NUint(u) => CanonScalar(Uint(u));
    case NFloat(b) => CanonScalar(Float64(b));
    case NFloat32(b) => CanonScalar(Float32(b));
  }

  /** The i-th pair under a map fits exactly when its key and what m has under it do. */
  ghost predicate PairFits(m: map<bytes, Native>, ws: seq<Wire>, i: nat, cfg: Config, depth: int)
    requires 2 * i + 1 < |ws|
  {
    && Key(ws, i) in m && IsStr(ws[2 * i].format)
    && (Fits(AnyMode, ws[2 * i], cfg, depth) <==> |Key(ws, i)| <= cfg.maxStr)
    && (Fits(AnyMode, ws[2 * i + 1], cfg, depth) <==> Admitted(m[Key(ws, i)], cfg, depth))
  }

  lemma {:induction false} WritesMapFits(t: Native, w: Wire, cfg: Config, depth: int)
    requires t.NMap? && Writes(t, w) && Storable(t)
    ensures Fits(AnyMode, w, cfg, depth) <==> Admitted(t, cfg, depth)
    decreases t, 0
  {
    hide BE, UnBE, Legal, CanonStr, IsStr;
    var m, ws, below := t.entries, w.kids, depth + 1;
    var _ := HeadField(Kind.Map, |m|);
    forall i | 0 <= i < |m| ensures PairFits(m, ws, i, cfg, below) {
      KeyTree(Key(ws, i));
      WritesFits(m[Key(ws, i)], ws[2 * i + 1], cfg, below);
    }
    MapKidsFit(m, ws, cfg, below);
  }

  lemma MapKidsFit(m: map<bytes, Native>, ws: seq<Wire>, cfg: Config, depth: int)
    requires |ws| == 2 * |m| && (forall i :: 0 <= i < |m| ==> PairFits(m, ws, i, cfg, depth))
    requires forall i, j :: 0 <= i < j < |m| ==> Key(ws, i) != Key(ws, j)
    ensures FitsAll(AnyMode, ws, true, cfg, depth) <==>
            forall k | k in m :: |k| <= cfg.maxStr && Admitted(m[k], cfg, depth)
  {
    hide FitsAll, Fits, IsStr, Admitted;
    FitsEach(AnyMode, ws, true, cfg, depth);
    if FitsAll(AnyMode, ws, true, cfg, depth) {
      forall k | k in m ensures |k| <= cfg.maxStr && Admitted(m[k], cfg, depth) {
        var i := PlaceOf(m, ws, k, cfg, depth);
        assert PairFits(m, ws, i, cfg, depth);
      }
    }
    if forall k | k in m :: |k| <= cfg.maxStr && Admitted(m[k], cfg, depth) {
      forall i | 0 <= i < |ws|
        ensures Fits(AnyMode, ws[i], cfg, depth) && (AtKey(true, |ws| - i) ==> IsStr(ws[i].format))
      {
        assert PairFits(m, ws, i / 2, cfg, depth);
        assert i == 2 * (i / 2) || i == 2 * (i / 2) + 1;
      }
    }
  }

  /** As many distinct keys of m as m has: each has its place. */
  lemma PlaceOf(m: map<bytes, Native>, ws: seq<Wire>, k: bytes, cfg: Config, depth: int) returns (i: nat)
    requires |ws| == 2 * |m| && (forall i :: 0 <= i < |m| ==> PairFits(m, ws, i, cfg, depth)) && k in m
    requires forall i, j :: 0 <= i < j < |m| ==> Key(ws, i) != Key(ws, j)
    ensures i < |m| && Key(ws, i) == k
  {
    hide Fits, IsStr, Admitted;
    var keys := seq(|m|, i requires 0 <= i < |m| => Key(ws, i));
    forall i | 0 <= i < |keys| ensures keys[i] in m.Keys {
      assert PairFits(m, ws, i, cfg, depth);
    }
    DistinctCover(keys, m.Keys);
    i :| 0 <= i < |keys| && keys[i] == k;
  }

  // ---- what is read was storable ----

  lemma {:induction false} DecodedStorable(v: Value<bytes>)
    requires Encodable(v)
    ensures Storable(NativeOf(v))
    decreases v, 1
  {
    match v
    case Array(vs) => DecodedAllStorable(vs);
    case Map(kvs) => DecodedPairsStorable(kvs);
    case _ =>
  }

  lemma {:induction false} DecodedAllStorable(vs: seq<Value<bytes>>)
    requires EncodableAll(vs)
    ensures forall i :: 0 <= i < |vs| ==> Storable(NativeAll(vs)[i])
    decreases vs, 0
  {
    forall i | 0 <= i < |vs| ensures Storable(NativeAll(vs)[i]) {
      EncodableAt(vs, i);
      NativeAt(vs, i);
      DecodedStorable(vs[i]);
    }
  }

  lemma {:induction false} EncodableAt(vs: seq<Value<bytes>>, i: nat)
    requires EncodableAll(vs) && i < |vs|
    ensures Encodable(vs[i])
  {
    if i > 0 { EncodableAt(vs[1..], i - 1); }
  }

  lemma {:induction false} EncodablePairAt(kvs: seq<KV<bytes>>, i: nat)
    requires EncodablePairs(kvs) && i < |kvs|
    ensures |KeyBytes(kvs[i].key)| < LENGTHS && EncodableKV(kvs[i])
  {
    if i > 0 { EncodablePairAt(kvs[1..], i - 1); }
  }

  lemma {:induction false} DecodedPairsStorable(kvs: seq<KV<bytes>>)
    requires EncodablePairs(kvs)
    ensures var m := NativePairs(kvs);
      |m| <= |kvs| && forall k | k in m :: |k| < LENGTHS && Storable(m[k])
    decreases kvs, 0
  {
    var m := NativePairs(kvs);
    NoMoreEntries(kvs);
    forall k | k in m ensures |k| < LENGTHS && Storable(m[k]) {
      LastWins(kvs, k);
      EncodablePairAt(kvs, LastIndex(kvs, k));
      DecodedKVStorable(kvs[LastIndex(kvs, k)]);
    }
  }

  lemma {:induction false} DecodedKVStorable(kv: KV<bytes>)
    requires EncodableKV(kv)
    ensures Storable(NativeKV(kv))
    decreases kv, 2
  {
    DecodedStorable(kv.value);
  }

  lemma {:induction false} NoMoreEntries(kvs: seq<KV<bytes>>)
    ensures |NativePairs(kvs)| <= |kvs|
  {
    if kvs != [] {
      var before, last := kvs[..|kvs| - 1], kvs[|kvs| - 1];
      NoMoreEntries(before);
      var m, k := NativePairs(before), KeyBytes(last.key);
      assert m[k := NativeKV(last)].Keys == m.Keys + {k};
    }
  }

  lemma {:induction false} FoldedStorable(t: Native)
    requires Storable(Folded(t))
    ensures Storable(t)
  {
    match t
    case NArr(ts) =>
      forall i | 0 <= i < |ts| ensures Storable(ts[i]) {
        assert Folded(t).items[i] == Folded(ts[i]);
        FoldedStorable(ts[i]);
      }
    case NMap(m) =>
      var n := Folded(t).entries;
      assert n.Keys == m.Keys;
      forall k | k in m ensures |k| < LENGTHS && Storable(m[k]) {
        assert k in n && n[k] == Folded(m[k]);
        FoldedStorable(m[k]);
      }
    case _ =>
  }

  /**
   Order-independent round trip: whatever tree `Encode` wrote for t, with whatever bytes around it,
   `DecodeAny` reads t back, with unsigned integers folded, and stops behind it - exactly when every
   length fits its count and the limits admit the value.
   */
  lemma RoundTripAny(t: Native, w: Wire, data: bytes, pos: nat, cfg: Config, depth: int)
    requires Writes(t, w) && At(data, pos, Flatten(w))
    ensures NativeRes(AnyMode, data, pos, cfg, depth) == Ok(Folded(t), pos + |Flatten(w)|)
       <==> Storable(t) && Admitted(t, cfg, depth)
  {
    hide Flatten, FlattenAll, Body, Legal, LegalAll, Folded, At;
    var end := pos + |Flatten(w)|;
    if NativeRes(AnyMode, data, pos, cfg, depth) == Ok(Folded(t), end) {
      var r := Parse(AnyMode, data, pos, cfg, depth).value;
      ParseExactly(AnyMode, data, pos, cfg, depth, r, end);
      LegalEncodable(r);
      DecodedStorable(Denote(r));
      FoldedStorable(t);
      WritesWell(t, w);
      SameStart(r, w, data, pos);
      WritesFits(t, w, cfg, depth);
    }
    if Storable(t) && Admitted(t, cfg, depth) {
      WritesWell(t, w);
      WritesFits(t, w, cfg, depth);
      ParseExactly(AnyMode, data, pos, cfg, depth, w, end);
    }
  }
}
