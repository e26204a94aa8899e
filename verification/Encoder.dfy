/** The `Encoder` (encoder.go): a buffer that grows by doubling, and the values written into it. */
module EncoderModule {
  import opened Bytes
  import opened Format
  import opened Wire
  import opened Values
  import opened Grammar
  import opened Encoding
  import opened Canonical

  function Max(a: nat, b: nat): nat { if a >= b then a else b }

  class Encoder {
    var buf: array<byte>        // the slice's backing array: its length is the capacity
    var len: nat
    ghost const initial: nat    // the capacity at the start
    ghost var peak: nat         // the greatest length asked for so far
    ghost var copied: nat       // bytes moved by `grow` so far

    ghost predicate Valid()
      reads this
    {
      && len <= buf.Length && len <= peak
      && buf.Length <= Max(initial, 2 * peak)  // at most twice what was needed
      && copied <= buf.Length                  // all copying together costs no more than the buffer is long
    }

    ghost function Contents(): bytes
      reads this, buf
      requires Valid()
    {
      buf[..len]
    }

    /** s was appended; nothing written before has changed. */
    twostate predicate Appended(s: bytes)
      reads this, buf
    {
      && old(Valid()) && Valid() && (buf == old(buf) || fresh(buf))
      && Contents() == old(Contents()) + s && peak == Max(old(peak), len)
    }

    /** `NewEncoder`. */
    constructor (capacity: nat)
      ensures Valid() && Contents() == [] && buf.Length == capacity == initial && fresh(buf)
      ensures peak == copied == 0
    {
      buf := new byte[capacity];
      len, initial, peak, copied := 0, capacity, 0, 0;
    }

    /** `NewEncoderBuffer`: the given buffer, its length reset. */
    constructor FromBuffer(b: array<byte>)
      ensures Valid() && Contents() == [] && buf == b && initial == b.Length
    {
      buf, len, initial, peak, copied := b, 0, b.Length, 0, 0;
    }

    method Reset()
      requires Valid()
      modifies `len
      ensures Valid() && Contents() == []
    {
      len := 0;
    }

    /** `grow`: afterwards n more bytes fit without another growth. */
    method Grow(n: nat)
      requires Valid()
      modifies this
      ensures Valid() && Contents() == old(Contents()) && len == old(len) && len + n <= buf.Length
      ensures buf == old(buf) || fresh(buf)
      ensures peak == Max(old(peak), len + n)
    {
      peak := Max(peak, len + n);
      if buf.Length - len >= n { return; }
      var newCap := buf.Length * 2;
      if newCap < len + n { newCap := len + n; }
      var newBuf := new byte[newCap];
      forall i | 0 <= i < len { newBuf[i] := buf[i]; }
      copied := copied + len;
      assert newBuf[..len] == buf[..len];
      buf := newBuf;
    }

    method WriteByte(b: byte)
      requires Valid()
      modifies this, buf
      ensures Appended([b])
    {
      Grow(1);
      buf[len] := b;
      len := len + 1;
    }

    method WriteBytes(s: bytes)
      requires Valid()
      modifies this, buf
      ensures Appended(s)
    {
      Grow(|s|);
      forall i | 0 <= i < |s| { buf[len + i] := s[i]; }
      len := len + |s|;
      assert buf[..len] == old(buf[..len]) + s;
    }

    /** `writeUint16`, `writeUint32`, `writeUint64` for w = 2, 4, 8: room first, then the bytes in place. */
    method WriteUint(w: nat, v: nat)
      requires Valid() && v < Pow256(w)
      modifies this, buf
      ensures Appended(BE(w, v))
    {
      Grow(w);
      var s := BE(w, v);
      forall i | 0 <= i < w { buf[len + i] := 0; }
      len := len + w;
      forall i | 0 <= i < w { buf[len - w + i] := s[i]; }
      assert buf[..len] == old(buf[..len]) + s;
    }

    /** A format byte and the w-byte number behind it. */
    method WriteTagged(format: byte, w: nat, v: nat)
      requires Valid() && v < Pow256(w)
      modifies this, buf
      ensures Appended([format] + BE(w, v))
    {
      ghost var before := Contents();
      WriteByte(format);
      if w == 1 { PowValues(); WriteByte(v); } else { WriteUint(w, v); }
      assert Contents() == before + [format] + BE(w, v);
    }

    method EncodeNil()
      requires Valid()
      modifies this, buf
      ensures Appended(Enc(Nil))
    {
      WriteByte(NIL);
    }

    method EncodeBool(v: bool)
      requires Valid()
      modifies this, buf
      ensures Appended(Enc(Bool(v)))
    {
      if v { WriteByte(TRUE); } else { WriteByte(FALSE); }
    }

    method EncodeInt(v: int64)
      requires Valid()
      modifies this, buf
      ensures Appended(Enc(Int(v)))
    {
      PowValues();
      FlattenScalar(CanonInt(v));
      if v >= 0 { EncodeUint(v); }
      else if v >= -32 { WriteByte(Unsigned(1, v)); }
      else if v >= -128 { WriteTagged(INT8, 1, Unsigned(1, v)); }
      else if v >= -32768 { WriteTagged(INT16, 2, Unsigned(2, v)); }
      else if v >= -2147483648 { WriteTagged(INT32, 4, Unsigned(4, v)); }
      else { WriteTagged(INT64, 8, Unsigned(8, v)); }
    }

    method EncodeUint(v: uint64)
      requires Valid()
      modifies this, buf
      ensures Appended(Enc(Uint(v)))
    {
      PowValues();
      FlattenScalar(CanonUint(v));
      if v <= 127 { WriteByte(v); }
      else if v <= 255 { WriteTagged(UINT8, 1, v); }
      else if v <= 65535 { WriteTagged(UINT16, 2, v); }
      else if v <= 4294967295 { WriteTagged(UINT32, 4, v); }
      else { WriteTagged(UINT64, 8, v); }
    }

    method EncodeFloat32(bits: uint32)
      requires Valid()
      modifies this, buf
      ensures Appended(Enc(Float32(bits)))
    {
      PowValues();
      FlattenScalar(Canon(Float32(bits)));
      WriteTagged(FLOAT32, 4, bits);
    }

    method EncodeFloat64(bits: uint64)
      requires Valid()
      modifies this, buf
      ensures Appended(Enc(Float64(bits)))
    {
      PowValues();
      FlattenScalar(Canon(Float64(bits)));
      WriteTagged(FLOAT64, 8, bits);
    }

    /** A 32-bit count; one too large for 32 bits is cut, as the conversion uint32(length) does. */
    method WriteCount32(format: byte, n: nat)
      requires Valid()
      modifies this, buf
      ensures Appended([format] + BE(4, n))
    {
      PowValues();
      CutBE(n);
      WriteTagged(format, 4, n % LENGTHS);
    }

    method WriteStringHeader(n: nat)
      requires Valid()
      modifies this, buf
      ensures Appended(Header(Kind.Str, n))
    {
      hide Tag;
      PowValues();
      if n <= 31 { Tagged(FIXSTR_PREFIX, n); WriteByte(Tag(FIXSTR_PREFIX, n)); }
      else if n <= 255 { WriteTagged(STR8, 1, n); }
      else if n <= 65535 { WriteTagged(STR16, 2, n); }
      else { WriteCount32(STR32, n); }
    }

    /** `EncodeString` and `EncodeStringBytes`. */
    method EncodeString(v: bytes)
      requires Valid()
      modifies this, buf
      ensures Appended(Flatten(CanonStr(v)))
    {
      ghost var before := Contents();
      WriteStringHeader(|v|);
      WriteBytes(v);
      FlattenCounted(CanonStr(v), Kind.Str, |v|);
      Glue(before, Header(Kind.Str, |v|), v);
    }

    method WriteBinaryHeader(n: nat)
      requires Valid()
      modifies this, buf
      ensures Appended(Header(Kind.Bin, n))
    {
      PowValues();
      if n <= 255 { WriteTagged(BIN8, 1, n); }
      else if n <= 65535 { WriteTagged(BIN16, 2, n); }
      else { WriteCount32(BIN32, n); }
    }

    method EncodeBinary(v: bytes)
      requires Valid()
      modifies this, buf
      ensures Appended(Enc(Value.Bin(v)))
    {
      ghost var before := Contents();
      WriteBinaryHeader(|v|);
      WriteBytes(v);
      FlattenCounted(Canon(Value.Bin(v)), Kind.Bin, |v|);
      Glue(before, Header(Kind.Bin, |v|), v);
    }

    /** A Go int may be negative; then one byte is written, the prefix or-ed with its low byte. */
    method EncodeArrayHeader(n: int)
      requires Valid()
      modifies this, buf
      ensures Appended(if n >= 0 then Header(Arr, n) else [Tag(FIXARRAY_PREFIX, n)])
    {
      hide Tag;
      PowValues();
      if 0 <= n <= 15 { Tagged(FIXARRAY_PREFIX, n); }
      if n <= 15 { WriteByte(Tag(FIXARRAY_PREFIX, n)); }
      else if n <= 65535 { WriteTagged(ARRAY16, 2, n); }
      else { WriteCount32(ARRAY32, n); }
    }

    /** Negative lengths as in `EncodeArrayHeader`. */
    method EncodeMapHeader(n: int)
      requires Valid()
      modifies this, buf
      ensures Appended(if n >= 0 then Header(Kind.Map, n) else [Tag(FIXMAP_PREFIX, n)])
    {
      hide Tag;
      PowValues();
      if 0 <= n <= 15 { Tagged(FIXMAP_PREFIX, n); }
      if n <= 15 { WriteByte(Tag(FIXMAP_PREFIX, n)); }
      else if n <= 65535 { WriteTagged(MAP16, 2, n); }
      else { WriteCount32(MAP32, n); }
    }

    method WriteExtHeader(n: nat)
      requires Valid()
      modifies this, buf
      ensures Appended(Header(Kind.Ext, n))
    {
      PowValues();
      match n
      case 1 => WriteByte(FIXEXT1);
      case 2 => WriteByte(FIXEXT2);
      case 4 => WriteByte(FIXEXT4);
      case 8 => WriteByte(FIXEXT8);
      case 16 => WriteByte(FIXEXT16);
      case _ =>
        if n <= 255 { WriteTagged(EXT8, 1, n); }
        else if n <= 65535 { WriteTagged(EXT16, 2, n); }
        else { WriteCount32(EXT32, n); }
    }

    method EncodeExt(extType: int8, d: bytes)
      requires Valid()
      modifies this, buf
      ensures Appended(Enc(Value.Ext(extType, d)))
    {
      PowValues();
      ghost var before := Contents();
      WriteExtHeader(|d|);
      WriteByte(Unsigned(1, extType));
      WriteBytes(d);
      FlattenCounted(Canon(Value.Ext(extType, d)), Kind.Ext, |d|);
      Glue(before, Header(Kind.Ext, |d|), [Unsigned(1, extType)]);
      Glue(before, Header(Kind.Ext, |d|) + [Unsigned(1, extType)], d);
      Glue(Header(Kind.Ext, |d|), [Unsigned(1, extType)], d);
    }

    /** `EncodeValue`. */
    method EncodeValue(v: Value<bytes>)
      requires Valid()
      modifies this, buf
      ensures Appended(Enc(v))
      decreases v, 1
    {
      match v
      case Nil => EncodeNil();
      case Bool(b) => EncodeBool(b);
      case Int(i) => EncodeInt(i);
      case Uint(u) => EncodeUint(u);
      case Float32(b) => EncodeFloat32(b);
      case Float64(b) => EncodeFloat64(b);
      case Str(s) => EncodeString(s);
      case Bin(s) => EncodeBinary(s);
      case Array(vs) =>
        ghost var before := Contents();
        EncodeArrayHeader(|vs|);
        EncodeItems(vs);
        FlattenCounted(Canon(v), Arr, |vs|);
        Glue(before, Header(Arr, |vs|), FlattenAll(CanonAll(vs)));
      case Map(kvs) =>
        ghost var before := Contents();
        EncodeMapHeader(|kvs|);
        EncodePairs(kvs);
        FlattenCounted(Canon(v), Kind.Map, |kvs|);
        Glue(before, Header(Kind.Map, |kvs|), FlattenAll(CanonPairs(kvs)));
      case Ext(t, d) => EncodeExt(t, d);
    }

    /** The array loop of `EncodeValue`. */
    method EncodeItems(vs: seq<Value<bytes>>)
      requires Valid()
      modifies this, buf
      ensures Appended(FlattenAll(CanonAll(vs)))
      decreases vs, 0
    {
      ghost var target := Contents() + FlattenAll(CanonAll(vs));
      for i := 0 to |vs|
        invariant Valid() && (buf == old(buf) || fresh(buf)) && peak == Max(old(peak), len)
        invariant Contents() + FlattenAll(CanonAll(vs[i..])) == target
      {
        UnfoldItems(vs, i, Contents());
        EncodeValue(vs[i]);
      }
    }

    /** The map loop of `EncodeValue`: keys as strings, a nil key as the empty one. */
    method EncodePairs(kvs: seq<KV<bytes>>)
      requires Valid()
      modifies this, buf
      ensures Appended(FlattenAll(CanonPairs(kvs)))
      decreases kvs, 0
    {
      hide Canon, CanonStr, Flatten;
      ghost var target := Contents() + FlattenAll(CanonPairs(kvs));
      for i := 0 to |kvs|
        invariant Valid() && (buf == old(buf) || fresh(buf)) && peak == Max(old(peak), len)
        invariant Contents() + FlattenAll(CanonPairs(kvs[i..])) == target
      {
        UnfoldKVs(kvs, i, Contents());
        EncodePair(kvs[i]);
      }
    }

    method EncodePair(kv: KV<bytes>)
      requires Valid()
      modifies this, buf
      ensures Appended(Flatten(CanonStr(KeyBytes(kv.key))) + Flatten(CanonKV(kv)))
      decreases kv, 2
    {
      ghost var before := Contents();
      EncodeString(KeyBytes(kv.key));
      EncodeValue(kv.value);
      Glue(before, Flatten(CanonStr(KeyBytes(kv.key))), Flatten(CanonKV(kv)));
    }
  }

  lemma Glue(a: bytes, b: bytes, c: bytes)
    ensures a + b + c == a + (b + c)
  {
  }

  lemma UnfoldItems(vs: seq<Value<bytes>>, i: nat, before: bytes)
    requires i < |vs|
    ensures before + FlattenAll(CanonAll(vs[i..])) == before + Enc(vs[i]) + FlattenAll(CanonAll(vs[i + 1..]))
  {
    assert vs[i..][1..] == vs[i + 1..];
    ConsAll(Canon(vs[i]), CanonAll(vs[i + 1..]));
    Glue(before, Enc(vs[i]), FlattenAll(CanonAll(vs[i + 1..])));
  }

  lemma UnfoldKVs(kvs: seq<KV<bytes>>, i: nat, before: bytes)
    requires i < |kvs|
    ensures before + FlattenAll(CanonPairs(kvs[i..]))
         == before + (Flatten(CanonStr(KeyBytes(kvs[i].key))) + Flatten(CanonKV(kvs[i])))
           + FlattenAll(CanonPairs(kvs[i + 1..]))
  {
    assert kvs[i..][1..] == kvs[i + 1..];
    var key, val, rest := CanonStr(KeyBytes(kvs[i].key)), CanonKV(kvs[i]), CanonPairs(kvs[i + 1..]);
    LegalPair(key, val, rest);
    Glue(Flatten(key), Flatten(val), FlattenAll(rest));
    Glue(before, Flatten(key) + Flatten(val), FlattenAll(rest));
  }

  lemma FlattenScalar(w: Wire)
    requires w.Leaf? && w.Shape().Scalar?
    ensures Flatten(w) == [w.format] + w.payload
  {
    assert CountPart(w) + Payload(w) == w.payload;
  }

  lemma FlattenCounted(w: Wire, kind: Kind, n: nat)
    requires w.format == Head(kind, n) && Count(w) == n
    ensures Flatten(w) == Header(kind, n) + Payload(w)
  {
    var field := HeadField(kind, n);
    assert CountPart(w) == CountBytes(field, n);
    assert [w.format] + (CountPart(w) + Payload(w)) == [w.format] + CountPart(w) + Payload(w);
  }

  lemma FlattenCountedAny(w: Wire)
    requires w.Shape().Counted?
    ensures Flatten(w) == [w.format] + CountBytes(w.Shape().field, Count(w)) + Payload(w)
  {
    assert [w.format] + (CountPart(w) + Payload(w)) == [w.format] + CountPart(w) + Payload(w);
  }

  /** Go's uint32(n): only the low four bytes are written. */
  lemma CutBE(n: nat)
    ensures BE(4, n % LENGTHS) == BE(4, n)
  {
    PowValues();
    LowBytes(4, n / LENGTHS, n % LENGTHS);
  }

  lemma {:induction false} LowBytes(w: nat, q: nat, m: nat)
    ensures BE(w, q * Pow256(w) + m) == BE(w, m)
  {
    if w > 0 {
      var p := q * Pow256(w - 1);
      assert q * Pow256(w) == 0x100 * p;
      assert (0x100 * p + m) / 0x100 == p + m / 0x100 && (0x100 * p + m) % 0x100 == m % 0x100;
      LowBytes(w - 1, q, m / 0x100);
    }
  }

  lemma BE4(n: nat)
    ensures BE(4, n) == [n / 0x100_0000 % 0x100, n / 0x1_0000 % 0x100, n / 0x100 % 0x100, n % 0x100]
  {
    BE2(n / 0x1_0000);
    assert n / 0x100 / 0x100 == n / 0x1_0000;
    assert BE(3, n / 0x100) == BE(2, n / 0x1_0000) + [n / 0x100 % 0x100];
  }

  lemma BE2(n: nat)
    ensures BE(2, n) == [n / 0x100 % 0x100, n % 0x100]
  {
    assert BE(1, n / 0x100) == [n / 0x100 % 0x100];
  }
}
