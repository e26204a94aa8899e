/** Encoding a struct as a map: the cached `StructEncoder` (struct_encoder.go) and `encodeStruct` (encode.go). */
module StructEncoding {
  import opened Bytes
  import opened Format
  import opened Wire
  import opened Values
  import opened Grammar
  import opened Encoding
  import opened Canonical
  import opened EncoderModule
  import opened Fields
  import opened StructDecoding

  /** A value of the kind: numbers within the field's width. */
  predicate Typed(k: FieldKind, v: FieldVal) {
    match k
    case FBool => v.VBool?
    case FInt(n) => v.VInt? && BitSize(n) && -HalfRange(n) <= v.i < HalfRange(n)
    case FUint(n) => v.VUint? && BitSize(n) && v.u < 2 * HalfRange(n)
    case FString => v.VStr?
    case FBytes => v.VBytes?
    case FSlice(e) => v.VList? && IsScalar(e) && forall i :: 0 <= i < |v.items| ==> Typed(e, v.items[i])
  }

  predicate AllTyped(fields: seq<Field>, vals: seq<FieldVal>) {
    |vals| == |fields| && forall i :: 0 <= i < |fields| ==> Flat(fields[i].kind) && Typed(fields[i].kind, vals[i])
  }

  /** The tree written for a field's value. */
  function CanonField(v: FieldVal): Wire
    decreases v, 1
  {
    match v
    case VBool(b) => Canon(Bool(b))
    case VInt(i) => Canon(Int(i))
    case VUint(u) => Canon(Uint(u))
    case VStr(s) => CanonStr(s)
    case VBytes(s) => Canon(Value.Bin(s))
    case VList(xs) => Node(Head(Arr, |xs|), CanonFields(xs))
  }

  function CanonFields(xs: seq<FieldVal>): (ws: seq<Wire>)
    ensures |ws| == |xs|
    decreases xs, 0
  {
    if xs == [] then [] else [CanonField(xs[0])] + CanonFields(xs[1..])
  }

  /** `isEmptyField`, `isEmptyValue`. */
  predicate IsEmpty(v: FieldVal) {
    match v
    case VBool(b) => !b
    case VInt(i) => i == 0
    case VUint(u) => u == 0
    case VStr(s) => |s| == 0
    case VBytes(s) => |s| == 0
    case VList(xs) => |xs| == 0
  }

  /** The field is written: omitempty drops only empty values. */
  predicate Present(f: Field, v: FieldVal) {
    !(f.omitempty && IsEmpty(v))
  }

  /** Key and value of every field written, in field order. */
  function KidsOf(fields: seq<Field>, vals: seq<FieldVal>): (ws: seq<Wire>)
    requires |vals| == |fields|
    ensures |ws| == 2 * CountOf(fields, vals)
  {
    if fields == [] then []
    else if Present(fields[0], vals[0])
    then [CanonStr(fields[0].name)] + ([CanonField(vals[0])] + KidsOf(fields[1..], vals[1..]))
    else KidsOf(fields[1..], vals[1..])
  }

  function CountOf(fields: seq<Field>, vals: seq<FieldVal>): nat
    requires |vals| == |fields|
  {
    if fields == [] then 0 else (if Present(fields[0], vals[0]) then 1 else 0) + CountOf(fields[1..], vals[1..])
  }

  /** The tree of a whole struct: its header announces exactly the pairs below it. */
  function StructTree(fields: seq<Field>, vals: seq<FieldVal>): Wire
    requires |vals| == |fields|
  {
    Node(Head(Kind.Map, CountOf(fields, vals)), KidsOf(fields, vals))
  }

  // ---- which fields are written, without a look at how ----

  /** omitempty drops a field exactly when it holds the zero of its type. */
  predicate IsWritten(f: Field, v: FieldVal) {
    !(f.omitempty && v == Zero(f.kind))
  }

  /** The indices of the fields written, from i on. */
  function Written(fields: seq<Field>, vals: seq<FieldVal>, i: nat): (js: seq<nat>)
    requires i <= |fields| == |vals|
    ensures forall a :: 0 <= a < |js| ==> i <= js[a] < |fields| && IsWritten(fields[js[a]], vals[js[a]])
    ensures forall a, b :: 0 <= a < b < |js| ==> js[a] < js[b]
    ensures forall j :: i <= j < |fields| && IsWritten(fields[j], vals[j]) ==> j in js
    decreases |fields| - i
  {
    if i == |fields| then []
    else (if IsWritten(fields[i], vals[i]) then [i] else []) + Written(fields, vals, i + 1)
  }

  lemma EmptyIsZero(k: FieldKind, v: FieldVal)
    requires Typed(k, v)
    ensures IsEmpty(v) <==> v == Zero(k)
  {
  }

  lemma PresentIsWritten(f: Field, v: FieldVal)
    requires Typed(f.kind, v)
    ensures Present(f, v) <==> IsWritten(f, v)
  {
    EmptyIsZero(f.kind, v);
  }

  /** The pairs in kids are names and values of the fields js, in that order. */
  ghost predicate InOrder(fields: seq<Field>, vals: seq<FieldVal>, js: seq<nat>, kids: seq<Wire>)
    requires |fields| == |vals| && forall a :: 0 <= a < |js| ==> js[a] < |fields|
  {
    && |kids| == 2 * |js|
    && forall a :: 0 <= a < |js| ==>
         kids[2 * a] == CanonStr(fields[js[a]].name) && kids[2 * a + 1] == CanonField(vals[js[a]])
  }

  lemma InOrderCons(fields: seq<Field>, vals: seq<FieldVal>, i: nat, js: seq<nat>, kids: seq<Wire>)
    requires |fields| == |vals| && i < |fields| && (forall a :: 0 <= a < |js| ==> js[a] < |fields|)
    requires InOrder(fields, vals, js, kids)
    ensures InOrder(fields, vals, [i] + js, [CanonStr(fields[i].name)] + ([CanonField(vals[i])] + kids))
  {
    hide CanonStr, CanonField;
    var more, js' := [CanonStr(fields[i].name)] + ([CanonField(vals[i])] + kids), [i] + js;
    forall a | 0 <= a < |js'|
      ensures more[2 * a] == CanonStr(fields[js'[a]].name) && more[2 * a + 1] == CanonField(vals[js'[a]])
    {
      if a > 0 {
        assert js'[a] == js[a - 1] && more[2 * a] == kids[2 * (a - 1)] && more[2 * a + 1] == kids[2 * (a - 1) + 1];
      }
    }
  }

  lemma KidsStep(fields: seq<Field>, vals: seq<FieldVal>, i: nat)
    requires |fields| == |vals| && i < |fields|
    ensures CountOf(fields[i..], vals[i..])
         == (if Present(fields[i], vals[i]) then 1 else 0) + CountOf(fields[i + 1..], vals[i + 1..])
    ensures KidsOf(fields[i..], vals[i..])
         == if Present(fields[i], vals[i])
            then [CanonStr(fields[i].name)] + ([CanonField(vals[i])] + KidsOf(fields[i + 1..], vals[i + 1..]))
            else KidsOf(fields[i + 1..], vals[i + 1..])
  {
    assert fields[i..][1..] == fields[i + 1..] && vals[i..][1..] == vals[i + 1..];
  }

  lemma {:induction false} KidsInOrder(fields: seq<Field>, vals: seq<FieldVal>, i: nat)
    requires AllTyped(fields, vals) && i <= |fields|
    ensures var js, kids := Written(fields, vals, i), KidsOf(fields[i..], vals[i..]);
      CountOf(fields[i..], vals[i..]) == |js| && InOrder(fields, vals, js, kids)
    decreases |fields| - i
  {
    if i < |fields| {
      hide CanonStr, CanonField, InOrder, Present, IsWritten, KidsOf, CountOf;
      KidsStep(fields, vals, i);
      PresentIsWritten(fields[i], vals[i]);
      KidsInOrder(fields, vals, i + 1);
      if IsWritten(fields[i], vals[i]) {
        InOrderCons(fields, vals, i, Written(fields, vals, i + 1), KidsOf(fields[i + 1..], vals[i + 1..]));
      } else {
        assert [] + Written(fields, vals, i + 1) == Written(fields, vals, i + 1);
      }
    } else {
      assert fields[i..] == [] && vals[i..] == [];
    }
  }

  /**
   What both encoders write for a struct: a map that announces as many pairs as fields are written, those fields
   in their order, each as its name and its value - and with distinct names a field's name is among the keys
   exactly when it is not an omitempty field that holds zero.
   */
  lemma {:induction false} TreeInOrder(fields: seq<Field>, vals: seq<FieldVal>)
    requires AllTyped(fields, vals)
    ensures var js, w := Written(fields, vals, 0), StructTree(fields, vals);
      w == Node(Head(Kind.Map, |js|), w.kids) && InOrder(fields, vals, js, w.kids)
  {
    assert fields[0..] == fields && vals[0..] == vals;
    KidsInOrder(fields, vals, 0);
  }

  lemma {:induction false} KeyedExactly(fields: seq<Field>, vals: seq<FieldVal>, j: nat)
    requires AllTyped(fields, vals) && j < |fields|
    requires forall a, b :: 0 <= a < b < |fields| ==> fields[a].name != fields[b].name
    ensures var w := StructTree(fields, vals);
      IsWritten(fields[j], vals[j]) <==> exists a :: 0 <= 2 * a < |w.kids| && w.kids[2 * a] == CanonStr(fields[j].name)
  {
    TreeInOrder(fields, vals);
    var js, w := Written(fields, vals, 0), StructTree(fields, vals);
    if IsWritten(fields[j], vals[j]) {
      var a :| 0 <= a < |js| && js[a] == j;
      assert w.kids[2 * a] == CanonStr(fields[j].name);
    }
    if a :| 0 <= 2 * a < |w.kids| && w.kids[2 * a] == CanonStr(fields[j].name) {
      assert w.kids[2 * a] == CanonStr(fields[js[a]].name);
      assert js[a] == j;
    }
  }

  /** A field value as a general one. */
  function AsValue(v: FieldVal): Value<bytes> {
    match v
    case VBool(b) => Bool(b)
    case VInt(i) => Int(i)
    case VUint(u) => Uint(u)
    case VStr(s) => Value.Str(s)
    case VBytes(s) => Value.Bin(s)
    case VList(xs) => Array(seq(|xs|, i requires 0 <= i < |xs| => AsValue(xs[i])))
  }

  /** A field is written byte for byte as `EncodeValue` writes the value. */
  lemma {:induction false} FieldAsValue(v: FieldVal)
    ensures CanonField(v) == Canon(AsValue(v))
    decreases v, 1
  {
    if v.VList? {
      var vs := AsValue(v).items;
      FieldsAsValues(v.items, vs);
    }
  }

  lemma {:induction false} FieldsAsValues(xs: seq<FieldVal>, vs: seq<Value<bytes>>)
    requires |vs| == |xs| && forall i :: 0 <= i < |xs| ==> vs[i] == AsValue(xs[i])
    ensures CanonFields(xs) == CanonAll(vs)
    decreases xs, 0
  {
    if xs != [] {
      FieldAsValue(xs[0]);
      FieldsAsValues(xs[1..], vs[1..]);
    }
  }

  /** `preEncodeString`: header and string in one buffer, the length split by shifts. */
  method PreEncodeString(s: bytes) returns (buf: array<byte>)
    ensures buf[..] == Flatten(CanonStr(s)) && fresh(buf)
  {
    hide Tag;
    var n := |s|;
    var head: bytes;
    if n <= 31 { Tagged(FIXSTR_PREFIX, n); head := [Tag(FIXSTR_PREFIX, n)]; }
    else if n <= 255 { head := [STR8, n]; }
    else if n <= 65535 { head := [STR16, n / 0x100 % 0x100, n % 0x100]; BE2(n); }
    else { head := [STR32, n / 0x100_0000 % 0x100, n / 0x1_0000 % 0x100, n / 0x100 % 0x100, n % 0x100]; BE4(n); }
    BE1(n);
    buf := new byte[|head| + n];
    forall i | 0 <= i < |head| { buf[i] := head[i]; }
    forall i | 0 <= i < n { buf[|head| + i] := s[i]; }
    assert buf[..] == head + s;
    FlattenCounted(CanonStr(s), Kind.Str, n);
  }

  lemma BE1(n: nat)
    ensures BE(1, n) == [n % 0x100]
  {
    assert BE(0, n / 0x100) == [];
  }

  /** `encodeField` and `encodeValue` on the kinds modelled; an element of a slice likewise. */
  method EncodeField(e: Encoder, v: FieldVal)
    requires e.Valid()
    modifies e, e.buf
    ensures e.Appended(Flatten(CanonField(v)))
    decreases v, 1
  {
    match v
    case VBool(b) => e.EncodeBool(b);
    case VInt(i) => e.EncodeInt(i);
    case VUint(u) => e.EncodeUint(u);
    case VStr(s) => e.EncodeString(s);
    case VBytes(s) => e.EncodeBinary(s);
    case VList(xs) =>
      ghost var before := e.Contents();
      e.EncodeArrayHeader(|xs|);
      EncodeElems(e, xs);
      FlattenCounted(CanonField(v), Arr, |xs|);
      Glue(before, Header(Arr, |xs|), FlattenAll(CanonFields(xs)));
  }

  method EncodeElems(e: Encoder, xs: seq<FieldVal>)
    requires e.Valid()
    modifies e, e.buf
    ensures e.Appended(FlattenAll(CanonFields(xs)))
    decreases xs, 0
  {
    ghost var target := e.Contents() + FlattenAll(CanonFields(xs));
    for i := 0 to |xs|
      invariant e.Valid() && (e.buf == old(e.buf) || fresh(e.buf)) && e.peak == Max(old(e.peak), e.len)
      invariant e.Contents() + FlattenAll(CanonFields(xs[i..])) == target
    {
      UnfoldElems(xs, i, e.Contents());
      EncodeField(e, xs[i]);
    }
  }

  lemma UnfoldElems(xs: seq<FieldVal>, i: nat, before: bytes)
    requires i < |xs|
    ensures before + FlattenAll(CanonFields(xs[i..])) == before + Flatten(CanonField(xs[i]))
            + FlattenAll(CanonFields(xs[i + 1..]))
  {
    assert xs[i..][1..] == xs[i + 1..];
    ConsAll(CanonField(xs[i]), CanonFields(xs[i + 1..]));
    Glue(before, Flatten(CanonField(xs[i])), FlattenAll(CanonFields(xs[i + 1..])));
  }

  lemma UnfoldKids(fields: seq<Field>, vals: seq<FieldVal>, i: nat, before: bytes)
    requires |vals| == |fields| && i < |fields|
    ensures CountOf(fields[i..], vals[i..])
         == (if Present(fields[i], vals[i]) then 1 else 0) + CountOf(fields[i + 1..], vals[i + 1..])
    ensures before + FlattenAll(KidsOf(fields[i..], vals[i..]))
         == (if !Present(fields[i], vals[i]) then before
             else before + (Flatten(CanonStr(fields[i].name)) + Flatten(CanonField(vals[i]))))
            + FlattenAll(KidsOf(fields[i + 1..], vals[i + 1..]))
  {
    assert fields[i..][1..] == fields[i + 1..] && vals[i..][1..] == vals[i + 1..];
    if Present(fields[i], vals[i]) {
      var key, val, rest := CanonStr(fields[i].name), CanonField(vals[i]), KidsOf(fields[i + 1..], vals[i + 1..]);
      LegalPair(key, val, rest);
      Glue(Flatten(key), Flatten(val), FlattenAll(rest));
      Glue(before, Flatten(key) + Flatten(val), FlattenAll(rest));
    }
  }

  /** The first pass of `encodeInto`. */
  method CountPresent(fields: seq<Field>, src: seq<FieldVal>) returns (count: nat)
    requires |src| == |fields|
    ensures count == CountOf(fields, src)
  {
    count := 0;
    for i := 0 to |fields|
      invariant count + CountOf(fields[i..], src[i..]) == CountOf(fields, src)
    {
      UnfoldKids(fields, src, i, []);
      if Present(fields[i], src[i]) { count := count + 1; }
    }
  }

  ghost predicate Encoded(fields: seq<Field>, names: seq<bytes>) {
    |names| <= |fields| && forall i :: 0 <= i < |names| ==> names[i] == Flatten(CanonStr(fields[i].name))
  }

  /** The cached encoder: a field list with every name encoded once and for all. */
  class StructEncoder {
    const fields: seq<Field>
    const names: seq<bytes>

    ghost predicate Valid() {
      |names| == |fields| && Encoded(fields, names)
    }

    /** `newStructEncoder`. */
    constructor (fields: seq<Field>)
      ensures Valid() && this.fields == fields
    {
      var ns: seq<bytes> := [];
      for i := 0 to |fields|
        invariant |ns| == i && Encoded(fields, ns)
      {
        var name := PreEncodeString(fields[i].name);
        ns := ns + [name[..]];
      }
      this.fields, names := fields, ns;
    }

    /** `encodeInto`: the count of the fields present, then each behind its encoded name. */
    method EncodeInto(e: Encoder, src: seq<FieldVal>)
      requires Valid() && e.Valid() && |src| == |fields|
      modifies e, e.buf
      ensures e.Appended(Flatten(StructTree(fields, src)))
    {
      ghost var before := e.Contents();
      var count := CountPresent(fields, src);
      e.EncodeMapHeader(count);
      EncodePresent(e, src);
      FlattenCounted(StructTree(fields, src), Kind.Map, count);
      Glue(before, Header(Kind.Map, count), FlattenAll(KidsOf(fields, src)));
    }

    /** The second pass of `encodeInto`. */
    method EncodePresent(e: Encoder, src: seq<FieldVal>)
      requires Valid() && e.Valid() && |src| == |fields|
      modifies e, e.buf
      ensures e.Appended(FlattenAll(KidsOf(fields, src)))
    {
      ghost var target := e.Contents() + FlattenAll(KidsOf(fields, src));
      for i := 0 to |fields|
        invariant e.Valid() && (e.buf == old(e.buf) || fresh(e.buf)) && e.peak == Max(old(e.peak), e.len)
        invariant e.Contents() + FlattenAll(KidsOf(fields[i..], src[i..])) == target
      {
        UnfoldKids(fields, src, i, e.Contents());
        if Present(fields[i], src[i]) { EncodeNamed(e, names[i], src[i]); }
      }
    }
  }

  /** A name already encoded, then the value. */
  method EncodeNamed(e: Encoder, name: bytes, v: FieldVal)
    requires e.Valid()
    modifies e, e.buf
    ensures e.Appended(name + Flatten(CanonField(v)))
  {
    ghost var before := e.Contents();
    e.WriteBytes(name);
    EncodeField(e, v);
    Glue(before, name, Flatten(CanonField(v)));
  }

  /** `encodeStruct`: collect the fields present, then write name and value of each. */
  method EncodeStruct(e: Encoder, fields: seq<Field>, src: seq<FieldVal>)
    requires e.Valid() && |src| == |fields|
    modifies e, e.buf
    ensures e.Appended(Flatten(StructTree(fields, src)))
  {
    ghost var before := e.Contents();
    var picked := PickPresent(fields, src);
    e.EncodeMapHeader(|picked|);
    EncodePicked(e, fields, src, picked);
    FlattenCounted(StructTree(fields, src), Kind.Map, |picked|);
    Glue(before, Header(Kind.Map, |picked|), FlattenAll(KidsOf(fields, src)));
  }

  /** The writing loop of `encodeStruct`. */
  method EncodePicked(e: Encoder, fields: seq<Field>, src: seq<FieldVal>, js: seq<nat>)
    requires e.Valid() && |src| == |fields| && forall i :: 0 <= i < |js| ==> js[i] < |fields|
    modifies e, e.buf
    ensures e.Appended(FlattenAll(KidsAt(fields, src, js)))
  {
    ghost var target := e.Contents() + FlattenAll(KidsAt(fields, src, js));
    for i := 0 to |js|
      invariant e.Valid() && (e.buf == old(e.buf) || fresh(e.buf)) && e.peak == Max(old(e.peak), e.len)
      invariant e.Contents() + FlattenAll(KidsAt(fields, src, js[i..])) == target
    {
      UnfoldPicked(fields, src, js, i, e.Contents());
      EncodeKeyed(e, fields[js[i]].name, src[js[i]]);
    }
  }

  /** A name, then the value. */
  method EncodeKeyed(e: Encoder, name: bytes, v: FieldVal)
    requires e.Valid()
    modifies e, e.buf
    ensures e.Appended(Flatten(CanonStr(name)) + Flatten(CanonField(v)))
  {
    ghost var before := e.Contents();
    e.EncodeString(name);
    EncodeField(e, v);
    Glue(before, Flatten(CanonStr(name)), Flatten(CanonField(v)));
  }

  /** Keys and values of the fields with the given indices. */
  function KidsAt(fields: seq<Field>, vals: seq<FieldVal>, js: seq<nat>): seq<Wire>
    requires |vals| == |fields| && forall i :: 0 <= i < |js| ==> js[i] < |fields|
  {
    if js == [] then []
    else [CanonStr(fields[js[0]].name)] + ([CanonField(vals[js[0]])] + KidsAt(fields, vals, js[1..]))
  }

  lemma UnfoldPicked(fields: seq<Field>, vals: seq<FieldVal>, js: seq<nat>, i: nat, before: bytes)
    requires |vals| == |fields| && (forall i :: 0 <= i < |js| ==> js[i] < |fields|) && i < |js|
    ensures before + FlattenAll(KidsAt(fields, vals, js[i..]))
         == before + (Flatten(CanonStr(fields[js[i]].name)) + Flatten(CanonField(vals[js[i]])))
            + FlattenAll(KidsAt(fields, vals, js[i + 1..]))
  {
    assert js[i..][1..] == js[i + 1..];
    var key, val, rest := CanonStr(fields[js[i]].name), CanonField(vals[js[i]]), KidsAt(fields, vals, js[i + 1..]);
    LegalPair(key, val, rest);
    Glue(Flatten(key), Flatten(val), FlattenAll(rest));
    Glue(before, Flatten(key) + Flatten(val), FlattenAll(rest));
  }

  /** The counting loop of `encodeStruct`. */
  method PickPresent(fields: seq<Field>, src: seq<FieldVal>) returns (js: seq<nat>)
    requires |src| == |fields|
    ensures forall i :: 0 <= i < |js| ==> js[i] < |fields|
    ensures |js| == CountOf(fields, src) && KidsAt(fields, src, js) == KidsOf(fields, src)
  {
    js := [];
    assert fields[0..] == fields && src[0..] == src;
    for i := 0 to |fields|
      invariant forall k :: 0 <= k < |js| ==> js[k] < |fields|
      invariant |js| + CountOf(fields[i..], src[i..]) == CountOf(fields, src)
      invariant KidsAt(fields, src, js) + KidsOf(fields[i..], src[i..]) == KidsOf(fields, src)
    {
      PickStep(fields, src, js, i);
      if Present(fields[i], src[i]) { js := js + [i]; }
    }
  }

  lemma PickStep(fields: seq<Field>, vals: seq<FieldVal>, js: seq<nat>, i: nat)
    requires |vals| == |fields| && (forall k :: 0 <= k < |js| ==> js[k] < |fields|) && i < |fields|
    ensures CountOf(fields[i..], vals[i..])
         == (if Present(fields[i], vals[i]) then 1 else 0) + CountOf(fields[i + 1..], vals[i + 1..])
    ensures KidsAt(fields, vals, js) + KidsOf(fields[i..], vals[i..])
         == (if Present(fields[i], vals[i]) then KidsAt(fields, vals, js + [i]) else KidsAt(fields, vals, js))
            + KidsOf(fields[i + 1..], vals[i + 1..])
  {
    assert fields[i..][1..] == fields[i + 1..] && vals[i..][1..] == vals[i + 1..];
    if Present(fields[i], vals[i]) {
      PickOne(fields, vals, js, i);
      Regroup(KidsAt(fields, vals, js), CanonStr(fields[i].name), CanonField(vals[i]),
              KidsOf(fields[i + 1..], vals[i + 1..]));
    }
  }

  lemma Regroup<T>(xs: seq<T>, a: T, b: T, ys: seq<T>)
    ensures xs + ([a] + ([b] + ys)) == xs + [a, b] + ys
  {
  }

  lemma {:induction false} PickOne(fields: seq<Field>, vals: seq<FieldVal>, js: seq<nat>, j: nat)
    requires |vals| == |fields| && (forall i :: 0 <= i < |js| ==> js[i] < |fields|) && j < |fields|
    ensures KidsAt(fields, vals, js + [j]) == KidsAt(fields, vals, js) + [CanonStr(fields[j].name), CanonField(vals[j])]
  {
    if js != [] {
      PickOne(fields, vals, js[1..], j);
      assert (js + [j])[1..] == js[1..] + [j];
    } else {
      assert (js + [j])[1..] == [];
    }
  }
}
