/** Go native values (`any`): what `DecodeAny` produces and what `Encode` accepts. */
module Natives {
  import opened Bytes
  import opened Wire
  import opened Values
  import opened Grammar
  import opened Encoding
  import opened Canonical

  datatype Native =
    | NNil
    | NBool(b: bool)
    | NInt(i: int64)            // int and the signed types of any width
    | NUint(u: uint64)          // uint and the unsigned types of any width
    | NFloat(bits: uint64)
    | NFloat32(bits32: uint32)  // float32; never decoded
    | NWidened(bits32: uint32)  // the float64 that a float32 on the wire converts to; only decoded
    | NStr(str: bytes)
    | NBin(bin: bytes)
    | NArr(items: seq<Native>)
    | NMap(entries: map<bytes, Native>)

  function FoldInt(u: uint64): Native {
    if u <= MAX_INT64 then NInt(u) else NUint(u)
  }

  /** A decoded value as a native one. Ext values and nil keys never get here from `DecodeAny`. */
  function NativeOf(v: Value<bytes>): Native
    decreases v, 1
  {
    match v
    case Nil => NNil
    case Bool(b) => NBool(b)
    case Int(i) => NInt(i)
    case Uint(u) => FoldInt(u)
    case Float32(b) => NWidened(b)
    case Float64(b) => NFloat(b)
    case Str(s) => NStr(s)
    case Bin(s) => NBin(s)
    case Array(vs) => NArr(NativeAll(vs))
    case Map(kvs) => NMap(NativePairs(kvs))
    case Ext(_, _) => NNil
  }

  function NativeAll(vs: seq<Value<bytes>>): (ts: seq<Native>)
    ensures |ts| == |vs|
    decreases vs, 0
  {
    if vs == [] then [] else NativeAll(vs[..|vs| - 1]) + [NativeOf(vs[|vs| - 1])]
  }

  /** Assignments in order: the last pair with a key wins. */
  function NativePairs(kvs: seq<KV<bytes>>): map<bytes, Native>
    decreases kvs, 0
  {
    if kvs == [] then map[] else
    NativePairs(kvs[..|kvs| - 1])[KeyBytes(kvs[|kvs| - 1].key) := NativeKV(kvs[|kvs| - 1])]
  }

  function NativeKV(kv: KV<bytes>): Native
    decreases kv, 2
  {
    NativeOf(kv.value)
  }

  // ---- what a native value stands for, independently of how it is made ----

  /** Whole numbers keep their value: signed where they fit in 63 bits, unsigned above. */
  predicate SameNumber(v: Value<bytes>, t: Native) {
    match v
    case Int(i) => t.NInt? && t.i == i
    case Uint(u) => if u < 0x8000_0000_0000_0000 then t.NInt? && t.i == u else t.NUint? && t.u == u
    case _ => false
  }

  /** t is the Go value for v: an array item by item, a map with the value of the last pair under each key. */
  ghost predicate Represents(v: Value<bytes>, t: Native)
    decreases v, 1
  {
    match v
    case Nil => t == NNil
    case Bool(b) => t == NBool(b)
    case Int(_) => SameNumber(v, t)
    case Uint(_) => SameNumber(v, t)
    case Float32(b) => t == NWidened(b)
    case Float64(b) => t == NFloat(b)
    case Str(s) => t == NStr(s)
    case Bin(s) => t == NBin(s)
    case Array(vs) => t.NArr? && |t.items| == |vs| && forall i :: 0 <= i < |vs| ==> Represents(vs[i], t.items[i])
    case Map(kvs) =>
      && t.NMap?
      && (forall i :: 0 <= i < |kvs| ==> KeyBytes(kvs[i].key) in t.entries)
      && (forall k | k in t.entries ::
            exists i :: 0 <= i < |kvs| && LastUnder(kvs, i, k) && RepresentsPair(kvs[i], t.entries[k]))
    case Ext(_, _) => true
  }

  ghost predicate RepresentsPair(kv: KV<bytes>, t: Native)
    decreases kv, 2
  {
    Represents(kv.value, t)
  }

  /** Pair i is the last one with key k. */
  predicate LastUnder(kvs: seq<KV<bytes>>, i: nat, k: bytes)
    requires i < |kvs|
  {
    KeyBytes(kvs[i].key) == k && forall j :: i < j < |kvs| ==> KeyBytes(kvs[j].key) != k
  }

  lemma {:induction false} NativeMeans(v: Value<bytes>)
    ensures Represents(v, NativeOf(v))
    decreases v, 1
  {
    match v
    case Array(vs) =>
      forall i | 0 <= i < |vs| ensures Represents(vs[i], NativeAll(vs)[i]) {
        NativeAt(vs, i);
        NativeMeans(vs[i]);
      }
    case Map(kvs) => NativeMeansPairs(kvs);
    case _ =>
  }

  lemma {:induction false} NativeMeansPairs(kvs: seq<KV<bytes>>)
    ensures var m := NativePairs(kvs);
      && (forall i :: 0 <= i < |kvs| ==> KeyBytes(kvs[i].key) in m)
      && (forall k | k in m :: exists i :: 0 <= i < |kvs| && LastUnder(kvs, i, k) && RepresentsPair(kvs[i], m[k]))
    decreases kvs, 0
  {
    var m := NativePairs(kvs);
    forall i | 0 <= i < |kvs| ensures KeyBytes(kvs[i].key) in m {
      LastWins(kvs, KeyBytes(kvs[i].key));
    }
    forall k | k in m ensures exists i :: 0 <= i < |kvs| && LastUnder(kvs, i, k) && RepresentsPair(kvs[i], m[k]) {
      LastWins(kvs, k);
      var i := LastIndex(kvs, k);
      NativeMeansKV(kvs[i]);
      assert LastUnder(kvs, i, k) && RepresentsPair(kvs[i], m[k]);
    }
  }

  lemma {:induction false} NativeMeansKV(kv: KV<bytes>)
    ensures RepresentsPair(kv, NativeKV(kv))
    decreases kv, 2
  {
    NativeMeans(kv.value);
  }

  lemma NativeAppend(vs: seq<Value<bytes>>, v: Value<bytes>)
    ensures NativeAll(vs + [v]) == NativeAll(vs) + [NativeOf(v)]
  {
    assert (vs + [v])[..|vs|] == vs;
  }

  lemma NativePairAppend(kvs: seq<KV<bytes>>, kv: KV<bytes>)
    ensures NativePairs(kvs + [kv]) == NativePairs(kvs)[KeyBytes(kv.key) := NativeKV(kv)]
  {
    assert (kvs + [kv])[..|kvs|] == kvs;
  }

  lemma {:induction false} NativeAt(vs: seq<Value<bytes>>, i: nat)
    requires i < |vs|
    ensures NativeAll(vs)[i] == NativeOf(vs[i])
  {
    if i < |vs| - 1 { NativeAt(vs[..|vs| - 1], i); }
  }

  // ---- duplicate keys ----

  /** Index of the last pair with key k, or -1. */
  function LastIndex(kvs: seq<KV<bytes>>, k: bytes): (i: int)
    ensures -1 <= i < |kvs|
    ensures i >= 0 ==> KeyBytes(kvs[i].key) == k
    ensures forall j :: i < j < |kvs| ==> KeyBytes(kvs[j].key) != k
  {
    if kvs == [] then -1
    else if KeyBytes(kvs[|kvs| - 1].key) == k then |kvs| - 1
    else LastIndex(kvs[..|kvs| - 1], k)
  }

  /** The native map holds, under each key, the last value the wire gave it. */
  lemma {:induction false} LastWins(kvs: seq<KV<bytes>>, k: bytes)
    ensures var i := LastIndex(kvs, k);
      (k in NativePairs(kvs) <==> i >= 0) && (i >= 0 ==> NativePairs(kvs)[k] == NativeOf(kvs[i].value))
  {
    if kvs != [] && KeyBytes(kvs[|kvs| - 1].key) != k { LastWins(kvs[..|kvs| - 1], k); }
  }

  ghost predicate DistinctKeys(kvs: seq<KV<bytes>>) {
    forall i, j :: 0 <= i < j < |kvs| ==> KeyBytes(kvs[i].key) != KeyBytes(kvs[j].key)
  }

  /** `Get`: the first pair with the key, found by a linear search that compares byte by byte. */
  method Get(v: Value<bytes>, key: bytes) returns (r: Option<Value<bytes>>)
    ensures !v.Map? ==> r == None
    ensures v.Map? ==>
      match r
      case None => forall i :: 0 <= i < |v.pairs| ==> KeyBytes(v.pairs[i].key) != key
      case Some(x) => exists i :: 0 <= i < |v.pairs| && KeyBytes(v.pairs[i].key) == key && v.pairs[i].value == x
                        && forall j :: 0 <= j < i ==> KeyBytes(v.pairs[j].key) != key
  {
    if !v.Map? { return None; }
    for i := 0 to |v.pairs|
      invariant forall j :: 0 <= j < i ==> KeyBytes(v.pairs[j].key) != key
    {
      var same := BytesEqual(KeyBytes(v.pairs[i].key), key);
      if same { return Some(v.pairs[i].value); }
    }
    return None;
  }

  /** `bytesEqual`. */
  method BytesEqual(a: bytes, b: bytes) returns (same: bool)
    ensures same <==> a == b
  {
    if |a| != |b| { return false; }
    for i := 0 to |a|
      invariant a[..i] == b[..i]
    {
      if a[i] != b[i] { return false; }
      assert a[..i + 1] == a[..i] + [a[i]] && b[..i + 1] == b[..i] + [b[i]];
    }
    assert a[..|a|] == a && b[..|b|] == b;
    return true;
  }

  /** First match and last assignment agree when no key is repeated, and can differ when one is. */
  lemma {:induction false} GetAgainstNative(kvs: seq<KV<bytes>>, i: nat)
    requires i < |kvs| && forall j :: 0 <= j < i ==> KeyBytes(kvs[j].key) != KeyBytes(kvs[i].key)
    ensures var k := KeyBytes(kvs[i].key);
      k in NativePairs(kvs) && (LastIndex(kvs, k) == i ==> NativePairs(kvs)[k] == NativeOf(kvs[i].value))
    ensures DistinctKeys(kvs) ==> NativePairs(kvs)[KeyBytes(kvs[i].key)] == NativeOf(kvs[i].value)
  {
    LastWins(kvs, KeyBytes(kvs[i].key));
  }

  // ---- `DecodeAny` against `Decode` ----

  /** No ext value and no nil key. */
  predicate PlainValue(v: Value<bytes>)
    decreases v, 1
  {
    match v
    case Ext(_, _) => false
    case Array(vs) => PlainValues(vs)
    case Map(kvs) => PlainPairs(kvs)
    case _ => true
  }

  predicate PlainValues(vs: seq<Value<bytes>>)
    decreases vs, 0
  {
    vs == [] || (PlainValue(vs[0]) && PlainValues(vs[1..]))
  }

  predicate PlainPairs(kvs: seq<KV<bytes>>)
    decreases kvs, 0
  {
    kvs == [] || (kvs[0].key.Some? && PlainKV(kvs[0]) && PlainPairs(kvs[1..]))
  }

  predicate PlainKV(kv: KV<bytes>)
    decreases kv, 2
  {
    PlainValue(kv.value)
  }

  lemma {:induction false} PlainMeans(w: Wire)
    requires Legal(w)
    ensures Plain(w) <==> PlainValue(Denote(w))
    decreases w, 1
  {
    if w.Node? {
      if w.Shape().kind.Arr? { PlainMeansAll(w.kids); } else { PlainMeansPairs(w.kids); }
    }
  }

  lemma {:induction false} PlainMeansAll(ws: seq<Wire>)
    requires LegalAll(ws)
    ensures PlainAll(ws, false) <==> PlainValues(DenoteAll(ws))
    decreases ws, 0
  {
    if ws != [] {
      PlainMeans(ws[0]);
      PlainMeansAll(ws[1..]);
      assert DenoteAll(ws)[1..] == DenoteAll(ws[1..]);
    }
  }

  lemma {:induction false} PlainMeansPairs(ws: seq<Wire>)
    requires LegalAll(ws) && |ws| % 2 == 0
    ensures PlainAll(ws, true) <==> PlainPairs(DenotePairs(ws))
    decreases ws, 0
  {
    if ws != [] {
      UnfoldPairs(ws);
      PlainMeans(ws[0]);
      PlainMeans(ws[1]);
      PlainMeansPairs(ws[2..]);
      assert PlainAll(ws[1..], true) <==> Plain(ws[1]) && PlainAll(ws[2..], true) by {
        assert ws[1..][1..] == ws[2..];
      }
    }
  }

  /** What `DecodeAny` (m = AnyMode) or its depth-free copy (m = TypedMode) returns. */
  ghost function NativeRes(m: Mode, data: bytes, pos: nat, cfg: Config, depth: int): Res<Native>
    requires pos <= |data|
  {
    match Parse(m, data, pos, cfg, depth)
    case Fail(e, p) => Fail(e, p)
    case Ok(w, p) => ParseExactly(m, data, pos, cfg, depth, w, p); Ok(NativeOf(Denote(w)), p)
  }

  /**
   From any state, `DecodeAny` succeeds exactly when `Decode` succeeds with a plain value; it then stops
   at the same place with that value made native. Where it fails it fails as `Decode` does, unless it meets
   something it takes for an invalid format; then it stops no later.
   */
  lemma {:induction false} AnySimulatesDecode(data: bytes, pos: nat, cfg: Config, depth: int)
    requires pos <= |data|
    ensures var any, val := NativeRes(AnyMode, data, pos, cfg, depth), DecodeOf(data, pos, cfg, depth);
      && (any.Ok? <==> val.Ok? && PlainValue(val.value))
      && (any.Ok? ==> any == Ok(NativeOf(val.value), val.pos))
      && (any.Fail? ==> (val.Fail? && any.err == val.err && any.pos == val.pos)
                        || (any.err == InvalidFormat && any.pos <= val.pos))
  {
    AnyFailsLikeValue(data, pos, cfg, depth);
    var any, val := Parse(AnyMode, data, pos, cfg, depth), Parse(ValueMode, data, pos, cfg, depth);
    if any.Ok? {
      AnyAgainstValue(data, pos, cfg, depth, any.value, any.pos);
      ParseExactly(ValueMode, data, pos, cfg, depth, any.value, any.pos);
      PlainMeans(any.value);
    }
    if val.Ok? {
      ParseExactly(ValueMode, data, pos, cfg, depth, val.value, val.pos);
      AnyAgainstValue(data, pos, cfg, depth, val.value, val.pos);
      PlainMeans(val.value);
    }
  }

  /**
   The depth-free copy gives whatever `DecodeAny` gives; where only the copy succeeds, the tree on the
   wire nests deeper than the limit allows. Where `DecodeAny` fails for anything but its depth, the copy
   fails at the same place, a key that is no string being a mismatch to it.
   */
  lemma {:induction false} TypedAgainstAny(data: bytes, pos: nat, cfg: Config, depth: int, depth': int)
    requires pos <= |data|
    ensures var any, typed := NativeRes(AnyMode, data, pos, cfg, depth), NativeRes(TypedMode, data, pos, cfg, depth');
      && (any.Ok? ==> typed == any)
      && (typed.Ok? ==> (any.Ok? <==> DepthRoom(Nest(Parse(TypedMode, data, pos, cfg, depth').value), cfg, depth)))
      && (any.Fail? && any.err != MaxDepthExceeded ==>
            && typed.Fail? && typed.pos == any.pos
            && (typed.err == any.err || (any.err == InvalidFormat && typed.err == TypeMismatch)))
  {
    TypedFailsLikeAny(data, pos, cfg, depth, depth');
    var any, typed := Parse(AnyMode, data, pos, cfg, depth), Parse(TypedMode, data, pos, cfg, depth');
    if any.Ok? { AnyAgainstTyped(data, pos, cfg, depth, depth', any.value, any.pos); }
    if typed.Ok? { AnyAgainstTyped(data, pos, cfg, depth, depth', typed.value, typed.pos); }
  }
}
