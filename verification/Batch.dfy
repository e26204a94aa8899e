/** The batch form of an integer array (`EncodeInt64Array`, `DecodeInt64Array`) against the general decoder. */
module Batch {
  import opened Bytes
  import opened Format
  import opened Wire
  import opened Values
  import opened Grammar
  import opened Decoding
  import opened Encoding
  import opened Canonical
  import opened EncoderModule
  import opened Fields
  import opened StructEncoding
  import opened StructRoundTrip
  import opened Reference
  import opened FieldReference

  const INT64_KIND: FieldKind := FInt(64)

  /** A slice of integers as a list of field values. */
  function Ints(a: seq<int64>): (xs: seq<FieldVal>)
    ensures |xs| == |a| && forall i :: 0 <= i < |a| ==> xs[i] == VInt(a[i])
  {
    seq(|a|, i requires 0 <= i < |a| => VInt(a[i]))
  }

  /** What `DecodeInt64Array` makes of the input: a slice of the cached decoder, but never nil. */
  ghost function BatchAt(data: bytes, pos: nat, cfg: Config): (r: Res<FieldVal>)
    requires pos <= |data|
    ensures pos <= r.pos <= |data|
  {
    if pos == |data| then Fail(UnexpectedEOF, pos) else SliceAt(Cached, INT64_KIND, data, pos + 1, data[pos], cfg, 0)
  }

  /** `EncodeInt64Array`. */
  method EncodeInt64Array(e: Encoder, arr: seq<int64>)
    requires e.Valid()
    modifies e, e.buf
    ensures e.Appended(Flatten(CanonField(VList(Ints(arr)))))
  {
    hide Canon;
    ghost var xs, before := Ints(arr), e.Contents();
    e.EncodeArrayHeader(|arr|);
    ghost var target := e.Contents() + FlattenAll(CanonFields(xs));
    for i := 0 to |arr|
      invariant e.Valid() && (e.buf == old(e.buf) || fresh(e.buf)) && e.peak == Max(old(e.peak), e.len)
      invariant e.Contents() + FlattenAll(CanonFields(xs[i..])) == target
    {
      UnfoldElems(xs, i, e.Contents());
      e.EncodeInt(arr[i]);
    }
    FlattenCounted(CanonField(VList(xs)), Arr, |xs|);
    Glue(before, Header(Arr, |xs|), FlattenAll(CanonFields(xs)));
  }

  /** `DecodeInt64Array`: no container is entered. */
  method DecodeInt64Array(d: Decoder) returns (r: Result<seq<int64>>)
    requires d.Valid()
    modifies d`pos
    ensures d.Valid()
    ensures Gave(BatchAt(d.data, old(d.pos), d.cfg), r.Map(a => VList(Ints(a))), d.pos)
  {
    hide CountAt, ScalarAt;
    var format :- d.ReadByte();
    var arrLen :- ReadCount(d, Arr, format);
    var result: seq<int64> := [];
    ghost var start := d.pos;
    for i := 0 to arrLen
      invariant d.Valid()
      invariant ElemsAt(Cached, INT64_KIND, d.data, start, arrLen, d.cfg, [])
             == ElemsAt(Cached, INT64_KIND, d.data, d.pos, arrLen - i, d.cfg, Ints(result))
    {
      var f :- d.ReadByte();
      var v :- DecodeInt(d, f, Cached);
      assert Ints(result + [v.i]) == Ints(result) + [v];
      result := result + [v.i];
    }
    return Success(result);
  }

  /** Reading back what `EncodeInt64Array` wrote gives the same integers, whatever follows, exactly within the limit. */
  lemma BatchRoundTrip(arr: seq<int64>, data: bytes, pos: nat, cfg: Config)
    requires |arr| < LENGTHS && At(data, pos, Flatten(CanonField(VList(Ints(arr)))))
    ensures BatchAt(data, pos, cfg) == Ok(VList(Ints(arr)), pos + |Flatten(CanonField(VList(Ints(arr))))|)
       <==> |arr| <= cfg.maxArr
  {
    hide Flatten, SliceAt, At;
    assert forall i :: 0 <= i < |arr| ==> FieldFits(Cached, Ints(arr)[i], cfg, 0);
    SliceBack(INT64_KIND, Ints(arr), Cached, data, pos, cfg, 0);
  }

  /** The elements the batch loop reads are those of the parser, at any depth. */
  lemma {:induction false} ElemsAreItems(data: bytes, pos: nat, n: nat, cfg: Config, depth: int, xs: seq<FieldVal>)
    requires pos <= |data| && ElemsAt(Cached, INT64_KIND, data, pos, n, cfg, xs).Ok?
    ensures var r := ElemsAt(Cached, INT64_KIND, data, pos, n, cfg, xs);
      var items := ParseAll(ValueMode, data, pos, n, false, cfg, depth);
      && items.Ok? && items.pos == r.pos && |items.value| == n && LegalAll(items.value)
      && |r.value| == |xs| + n && r.value[..|xs|] == xs
      && forall i :: 0 <= i < n ==> IsInt(DenoteAll(items.value)[i], r.value[|xs| + i])
    decreases n
  {
    hide ScalarAt, ParseBody, Flatten;
    if n > 0 {
      var e := ElemAt(Cached, INT64_KIND, data, pos, cfg);
      ItemIsInt(data, pos, cfg, depth);
      ElemsAreItems(data, e.pos, n - 1, cfg, depth, xs + [e.value]);
      var w := Parse(ValueMode, data, pos, cfg, depth).value;
      var rest := ParseAll(ValueMode, data, e.pos, n - 1, false, cfg, depth).value;
      ConsAll(w, rest);
      assert ([w] + rest)[1..] == rest;
      var r := ElemsAt(Cached, INT64_KIND, data, pos, n, cfg, xs).value;
      assert r[..|xs|] == r[..|xs| + 1][..|xs|] && r[|xs|] == r[..|xs| + 1][|xs|];
    }
  }

  /** v is an integer, and `AsInt` of it is x. */
  predicate IsInt(v: Value<bytes>, x: FieldVal) {
    (v.Int? || v.Uint?) && x == VInt(v.AsInt())
  }

  lemma {:induction false} ItemIsInt(data: bytes, pos: nat, cfg: Config, depth: int)
    requires pos <= |data| && ElemAt(Cached, INT64_KIND, data, pos, cfg).Ok?
    ensures var e := ElemAt(Cached, INT64_KIND, data, pos, cfg);
      var item := Parse(ValueMode, data, pos, cfg, depth);
      item.Ok? && item.pos == e.pos && Legal(item.value) && IsInt(Denote(item.value), e.value)
  {
    LeafAnyDepth(ValueMode, data, pos + 1, data[pos], cfg, 0, depth);
    SoundBody(ValueMode, data, pos + 1, data[pos], cfg, 0);
  }

  /**
   The batch form against the general one: whatever `DecodeInt64Array` accepts, `Decode` reads as an array
   of integers over the same bytes, element by element the same under `AsInt` - exactly when the depth limit
   has room for one container, which the batch form never counts.
   */
  lemma BatchRefinesDecode(data: bytes, pos: nat, cfg: Config, depth: int)
    requires pos <= |data| && BatchAt(data, pos, cfg).Ok?
    ensures DecodeOf(data, pos, cfg, depth).Ok? <==> depth + 1 <= cfg.maxDepth
    ensures depth + 1 <= cfg.maxDepth ==>
      var r, v := BatchAt(data, pos, cfg), DecodeOf(data, pos, cfg, depth);
      && r.value.VList? && v.value.Array? && v.pos == r.pos && |v.value.items| == |r.value.items|
      && forall i :: 0 <= i < |r.value.items| ==> IsInt(v.value.items[i], r.value.items[i])
  {
    hide ElemsAt, Parse, ParseAll;
    var count := CountAt(Arr, data, pos + 1, data[pos], cfg);
    OpenArray(data, pos, cfg, depth);
    var none: seq<FieldVal> := [];
    ElemsAreItems(data, count.pos, count.value, cfg, depth + 1, none);
    if depth + 1 <= cfg.maxDepth {
      var w, xs := Parse(ValueMode, data, pos, cfg, depth).value, BatchAt(data, pos, cfg).value.items;
      forall i | 0 <= i < |xs| ensures IsInt(DenoteAll(w.kids)[i], xs[i]) {
        assert xs[i] == xs[|none| + i];
      }
    }
  }

  /** An array header with room for its items: the parser goes on with the items, one level down. */
  lemma {:induction false} OpenArray(data: bytes, pos: nat, cfg: Config, depth: int)
    requires pos < |data| && CountAt(Arr, data, pos + 1, data[pos], cfg).Ok?
    ensures var count := CountAt(Arr, data, pos + 1, data[pos], cfg);
      Parse(ValueMode, data, pos, cfg, depth)
        == if depth + 1 > cfg.maxDepth then Fail(MaxDepthExceeded, count.pos)
           else match ParseAll(ValueMode, data, count.pos, count.value, false, cfg, depth + 1) {
             case Fail(e, p) => Fail(e, p)
             case Ok(ws, p) => Ok(Node(data[pos], ws), p)
           }
  {
    CountKnown(ValueMode, data, pos + 1, data[pos], cfg, depth);
  }

  // ---- exactly which inputs ----

  predicate IsWhole(v: Value<bytes>) { v.Int? || v.Uint? }

  /** A format the batch form refuses stands for no whole number. */
  lemma {:induction false} NoWhole(data: bytes, pos: nat, cfg: Config, depth: int)
    requires pos < |data| && !FormatTaken(Cached, INT64_KIND, data[pos])
    ensures var r := Read(ValueMode, data, pos, cfg, depth); r.Ok? ==> !IsWhole(r.value)
  {
  }

  lemma {:induction false} ElemExactly(data: bytes, pos: nat, cfg: Config, depth: int)
    requires pos <= |data|
    ensures var e, r := ElemAt(Cached, INT64_KIND, data, pos, cfg), Read(ValueMode, data, pos, cfg, depth);
      && (e.Ok? <==> r.Ok? && IsWhole(r.value)) && (e.Ok? ==> e.pos == r.pos)
      && (e.Fail? && e.err != TypeMismatch ==> r == Fail(e.err, e.pos))
  {
    hide Read, ScalarAt, FormatTaken;
    if pos < |data| {
      ScalarConverts(Cached, INT64_KIND, data, pos, cfg, depth);
      if !FormatTaken(Cached, INT64_KIND, data[pos]) { NoWhole(data, pos, cfg, depth); }
    } else {
      assert Read(ValueMode, data, pos, cfg, depth) == Fail(UnexpectedEOF, pos) by { AtTheEnd(data, cfg, depth); }
    }
  }

  lemma AtTheEnd(data: bytes, cfg: Config, depth: int)
    ensures Read(ValueMode, data, |data|, cfg, depth) == Fail(UnexpectedEOF, |data|)
  {
  }

  lemma {:induction false} ElemsExactly(data: bytes, pos: nat, n: nat, cfg: Config, depth: int, xs: seq<FieldVal>)
    requires pos <= |data|
    ensures var es := ElemsAt(Cached, INT64_KIND, data, pos, n, cfg, xs);
      var r := ReadItems(ValueMode, data, pos, n, cfg, depth);
      && (es.Ok? <==> r.Ok? && AllWhole(r.value))
      && (es.Fail? && es.err != TypeMismatch ==> r == Fail(es.err, es.pos))
    decreases n
  {
    hide ElemAt, Read, IsWhole;
    if n > 0 {
      ElemExactly(data, pos, cfg, depth);
      var e := ElemAt(Cached, INT64_KIND, data, pos, cfg);
      if e.Ok? {
        ElemsExactly(data, e.pos, n - 1, cfg, depth, xs + [e.value]);
        var v := Read(ValueMode, data, pos, cfg, depth).value;
        var rest := ReadItems(ValueMode, data, e.pos, n - 1, cfg, depth);
        if rest.Ok? { assert ([v] + rest.value)[1..] == rest.value; }
      }
    }
  }

  predicate AllWhole(vs: seq<Value<bytes>>) {
    vs == [] || (IsWhole(vs[0]) && AllWhole(vs[1..]))
  }

  /**
   With depth for one container, `DecodeInt64Array` accepts exactly the inputs that `Decode` reads as an array of
   whole numbers; where it fails with anything but a mismatch, `Decode` fails likewise.
   */
  lemma {:induction false} BatchExactly(data: bytes, pos: nat, cfg: Config, depth: int)
    requires pos <= |data| && depth + 1 <= cfg.maxDepth
    ensures var b, r := BatchAt(data, pos, cfg), DecodeOf(data, pos, cfg, depth);
      && (b.Ok? <==> r.Ok? && r.value.Array? && AllWhole(r.value.items))
      && (b.Fail? && b.err != TypeMismatch ==> r == Fail(b.err, b.pos))
  {
    hide DecodeOf, ElemsAt, ReadItems, CountAt, IsWhole, Number;
    DecodeAgrees(data, pos, cfg, depth);
    if pos < |data| {
      CountConverts(Arr, data, pos, cfg);
      var count := CountAt(Arr, data, pos + 1, data[pos], cfg);
      if count.Ok? { ElemsExactly(data, count.pos, count.value, cfg, depth + 1, []); }
    }
  }
}
