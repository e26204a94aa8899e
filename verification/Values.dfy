/** Decoded values (value.go), what a wire tree means, and the zero-copy windows of a value. */
module Values {
  import opened Bytes
  import opened Format
  import opened Wire

  datatype Option<+T> = None | Some(value: T)

  /** A Go byte slice that points into the decoder's input. */
  datatype Slice = Slice(off: nat, len: nat)

  /** `Value`; B is how bytes are held: as windows of the input, or as contents. Floats are bit patterns. */
  datatype Value<+B> =
    | Nil
    | Bool(b: bool)
    | Int(i: int64)
    | Uint(u: uint64)
    | Float32(bits32: uint32)
    | Float64(bits64: uint64)
    | Str(str: B)
    | Bin(bin: B)
    | Array(items: seq<Value<B>>)
    | Map(pairs: seq<KV<B>>)
    | Ext(typ: int8, data: B)
  {
    /** `AsInt`. */
    function AsInt(): int64 {
      if Uint? then Wrap64(u) else if Int? then i else 0
    }
  }

  /** A key that was not a string decodes to a nil key. */
  datatype KV<+B> = KV(key: Option<B>, value: Value<B>)

  // ---- the meaning of wire trees ----

  ghost function ScalarOf<B>(f: byte, p: bytes): Value<B>
    requires ShapeOf(f) == Scalar(|p|)
  {
    PowValues();
    if f <= 0x7f then Uint(f)
    else if f >= 0xe0 then Int(f - 0x100)
    else if f == NIL then Nil
    else if f == FALSE || f == TRUE then Bool(f == TRUE)
    else if f == FLOAT32 then Float32(UnBE(p))
    else if f == FLOAT64 then Float64(UnBE(p))
    else if f <= UINT64 then Uint(UnBE(p))
    else Int(Signed(|p|, UnBE(p)))
  }

  ghost function Denote(w: Wire): Value<bytes>
    requires Legal(w)
    decreases w, 1
  {
    match w.Shape()
    case Scalar(_) => ScalarOf(w.format, w.payload)
    case Counted(kind, _) =>
      match kind
      case Str => Value.Str(w.payload)
      case Bin => Value.Bin(w.payload)
      case Ext => PowValues(); Value.Ext(Signed(1, w.payload[0]), w.payload[1..])
      case Arr => Array(DenoteAll(w.kids))
      case Map => Value.Map(DenotePairs(w.kids))
  }

  ghost function DenoteAll(ws: seq<Wire>): (vs: seq<Value<bytes>>)
    requires LegalAll(ws)
    ensures |vs| == |ws|
    decreases ws, 0
  {
    if ws == [] then [] else [Denote(ws[0])] + DenoteAll(ws[1..])
  }

  ghost function DenotePairs(ws: seq<Wire>): (kvs: seq<KV<bytes>>)
    requires LegalAll(ws) && |ws| % 2 == 0
    ensures |kvs| == |ws| / 2
    decreases ws, 0
  {
    if ws == [] then [] else
    assert LegalAll(ws[1..]) && ws[1..][1..] == ws[2..];
    [KV(KeyOf(ws[0]), Denote(ws[1]))] + DenotePairs(ws[2..])
  }

  function KeyOf(w: Wire): Option<bytes> {
    if IsStr(w.format) && w.Leaf? then Some(w.payload) else None
  }

  lemma {:induction false} DenoteAppend(ws: seq<Wire>, w: Wire)
    requires LegalAll(ws) && Legal(w)
    ensures LegalAll(ws + [w]) && DenoteAll(ws + [w]) == DenoteAll(ws) + [Denote(w)]
  {
    if ws != [] {
      DenoteAppend(ws[1..], w);
      assert (ws + [w])[1..] == ws[1..] + [w];
    } else {
      assert ws + [w] == [w];
    }
  }

  lemma {:induction false} DenotePairAppend(ws: seq<Wire>, k: Wire, w: Wire)
    requires LegalAll(ws) && |ws| % 2 == 0 && Legal(k) && Legal(w)
    ensures LegalAll(ws + [k, w]) && DenotePairs(ws + [k, w]) == DenotePairs(ws) + [KV(KeyOf(k), Denote(w))]
  {
    if ws != [] {
      DenotePairAppend(ws[2..], k, w);
      assert (ws + [k, w])[1..][1..] == (ws + [k, w])[2..] == ws[2..] + [k, w];
      assert ws[1..][1..] == ws[2..];
    } else {
      assert ws + [k, w] == [k, w] && [k, w][1..] == [w];
    }
  }

  // ---- windows ----

  function View(data: bytes, s: Slice): bytes {
    if s.off + s.len <= |data| then data[s.off..s.off + s.len] else []
  }

  /** The value with every window replaced by the bytes it shows. */
  function Resolve(data: bytes, v: Value<Slice>): Value<bytes>
    decreases v, 1
  {
    match v
    case Nil => Nil
    case Bool(b) => Bool(b)
    case Int(i) => Int(i)
    case Uint(u) => Uint(u)
    case Float32(b) => Float32(b)
    case Float64(b) => Float64(b)
    case Str(s) => Value.Str(View(data, s))
    case Bin(s) => Value.Bin(View(data, s))
    case Array(vs) => Array(ResolveAll(data, vs))
    case Map(kvs) => Value.Map(ResolvePairs(data, kvs))
    case Ext(t, s) => Value.Ext(t, View(data, s))
  }

  function ResolveAll(data: bytes, vs: seq<Value<Slice>>): (us: seq<Value<bytes>>)
    decreases vs, 0
  {
    if vs == [] then [] else [Resolve(data, vs[0])] + ResolveAll(data, vs[1..])
  }

  function ResolvePairs(data: bytes, kvs: seq<KV<Slice>>): (us: seq<KV<bytes>>)
    decreases kvs, 0
  {
    if kvs == [] then [] else [ResolvePair(data, kvs[0])] + ResolvePairs(data, kvs[1..])
  }

  function ResolvePair(data: bytes, kv: KV<Slice>): KV<bytes>
    decreases kv, 2
  {
    KV(if kv.key.Some? then Some(View(data, kv.key.value)) else None, Resolve(data, kv.value))
  }

  lemma {:induction false} ResolveAppend(data: bytes, vs: seq<Value<Slice>>, v: Value<Slice>)
    ensures ResolveAll(data, vs + [v]) == ResolveAll(data, vs) + [Resolve(data, v)]
  {
    if vs != [] {
      ResolveAppend(data, vs[1..], v);
      assert (vs + [v])[1..] == vs[1..] + [v];
    }
  }

  lemma {:induction false} ResolvePairAppend(data: bytes, kvs: seq<KV<Slice>>, kv: KV<Slice>)
    ensures ResolvePairs(data, kvs + [kv]) == ResolvePairs(data, kvs) + [ResolvePair(data, kv)]
  {
    if kvs != [] {
      ResolvePairAppend(data, kvs[1..], kv);
      assert (kvs + [kv])[1..] == kvs[1..] + [kv];
    }
  }

  /** The windows of a value, in tree order. */
  function Windows(v: Value<Slice>): seq<Slice>
    decreases v, 1
  {
    match v
    case Str(s) => [s]
    case Bin(s) => [s]
    case Ext(_, s) => [s]
    case Array(vs) => WindowsAll(vs)
    case Map(kvs) => WindowsPairs(kvs)
    case _ => []
  }

  function WindowsAll(vs: seq<Value<Slice>>): seq<Slice>
    decreases vs, 0
  {
    if vs == [] then [] else Windows(vs[0]) + WindowsAll(vs[1..])
  }

  function WindowsPairs(kvs: seq<KV<Slice>>): seq<Slice>
    decreases kvs, 0
  {
    if kvs == [] then [] else WindowsPair(kvs[0]) + WindowsPairs(kvs[1..])
  }

  function WindowsPair(kv: KV<Slice>): seq<Slice>
    decreases kv, 2
  {
    (if kv.key.Some? then [kv.key.value] else []) + Windows(kv.value)
  }

  lemma {:induction false} WindowsAppend(vs: seq<Value<Slice>>, v: Value<Slice>)
    ensures WindowsAll(vs + [v]) == WindowsAll(vs) + Windows(v)
  {
    if vs != [] {
      WindowsAppend(vs[1..], v);
      assert (vs + [v])[1..] == vs[1..] + [v];
    }
  }

  lemma {:induction false} WindowsPairAppend(kvs: seq<KV<Slice>>, kv: KV<Slice>)
    ensures WindowsPairs(kvs + [kv]) == WindowsPairs(kvs) + WindowsPair(kv)
  {
    if kvs != [] {
      WindowsPairAppend(kvs[1..], kv);
      assert (kvs + [kv])[1..] == kvs[1..] + [kv];
    }
  }

  /** The windows follow each other without overlap between offsets lo and hi. */
  ghost predicate Ordered(ss: seq<Slice>, lo: nat, hi: nat) {
    if ss == [] then lo <= hi
    else lo <= ss[0].off && Ordered(ss[1..], ss[0].off + ss[0].len, hi)
  }

  lemma {:induction false} OrderedConcat(a: seq<Slice>, b: seq<Slice>, lo: nat, mid: nat, hi: nat)
    requires Ordered(a, lo, mid) && Ordered(b, mid, hi)
    ensures Ordered(a + b, lo, hi)
  {
    if a == [] {
      assert a + b == b;
      OrderedFrom(b, lo, mid, hi);
    } else {
      OrderedConcat(a[1..], b, a[0].off + a[0].len, mid, hi);
      assert (a + b)[1..] == a[1..] + b;
    }
  }

  lemma OrderedFrom(ss: seq<Slice>, lo: nat, mid: nat, hi: nat)
    requires lo <= mid && Ordered(ss, mid, hi)
    ensures Ordered(ss, lo, hi)
  {
  }

  /** What `Ordered` says, pairwise: windows are inside the range, increasing and disjoint. */
  lemma {:induction false} OrderedPairwise(ss: seq<Slice>, lo: nat, hi: nat)
    requires Ordered(ss, lo, hi)
    ensures lo <= hi
    ensures forall i :: 0 <= i < |ss| ==> lo <= ss[i].off && ss[i].off + ss[i].len <= hi
    ensures forall i, j :: 0 <= i < j < |ss| ==> ss[i].off + ss[i].len <= ss[j].off
  {
    if ss != [] {
      var rest := ss[1..];
      OrderedPairwise(rest, ss[0].off + ss[0].len, hi);
      forall i | 0 <= i < |ss| ensures lo <= ss[i].off && ss[i].off + ss[i].len <= hi {
        if i > 0 { assert ss[i] == rest[i - 1]; }
      }
      forall i, j | 0 <= i < j < |ss| ensures ss[i].off + ss[i].len <= ss[j].off {
        assert ss[j] == rest[j - 1];
        if i > 0 { assert ss[i] == rest[i - 1]; }
      }
    }
  }
}
