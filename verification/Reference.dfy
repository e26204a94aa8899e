/**
 The decoders of arbitrary values written out a second time, straight from the "Formats" table: bytes to values,
 every first byte, width, limit, error and cursor in plain numbers, without trees and without any function
 the other modules decode with. `Agrees` proves that this and they are the same.
 */
module Reference {
  import opened Bytes
  import opened Format
  import opened Wire
  import opened Values
  import opened Grammar
  import opened Canonical
  import opened Decoding
  import opened Natives

  // ---- numbers ----

  /** The most significant byte comes first. */
  function Number(s: bytes): nat {
    if s == [] then 0 else s[0] * Pow256(|s| - 1) + Number(s[1..])
  }

  /** A first bit of one makes a signed number negative. */
  function TwosComplement(s: bytes): int
    requires s != []
  {
    if s[0] < 0x80 then Number(s) else Number(s) - Pow256(|s|)
  }

  lemma {:induction false} NumberLast(s: bytes)
    requires s != []
    ensures Number(s) == Number(s[..|s| - 1]) * 0x100 + s[|s| - 1]
  {
    var n := |s| - 1;
    if n > 0 {
      NumberLast(s[1..]);
      assert s[1..][..n - 1] == s[..n][1..] && s[1..][n - 1] == s[n];
      assert s[0] * Pow256(n) == s[0] * Pow256(n - 1) * 0x100;
    }
  }

  lemma {:induction false} NumberIsUnBE(s: bytes)
    ensures Number(s) == UnBE(s) < Pow256(|s|)
  {
    if s != [] {
      NumberLast(s);
      NumberIsUnBE(s[..|s| - 1]);
    }
  }

  lemma TwosComplementIsSigned(s: bytes)
    requires s != []
    ensures TwosComplement(s) == Signed(|s|, UnBE(s))
  {
    NumberIsUnBE(s);
    NumberIsUnBE(s[1..]);
    var p := Pow256(|s| - 1);
    if s[0] < 0x80 { Times(s[0], 0x7f, p); } else { Times(0x80, s[0], p); }
    assert Half(|s|) == 0x80 * p;
  }

  lemma Times(a: nat, b: nat, p: nat)
    requires a <= b
    ensures a * p <= b * p
  {
  }

  // ---- the table ----

  /** Payload bytes of the formats that stand for one scalar, -1 for the others. */
  function ScalarWidth(b: byte): int {
    if b <= 0x7f || b >= 0xe0 || b == 0xc0 || b == 0xc2 || b == 0xc3 then 0
    else if b == 0xcc || b == 0xd0 then 1
    else if b == 0xcd || b == 0xd1 then 2
    else if b == 0xce || b == 0xd2 || b == 0xca then 4
    else if b == 0xcf || b == 0xd3 || b == 0xcb then 8
    else -1
  }

  /** What a scalar format stands for. */
  function ScalarValue(b: byte, s: bytes): Value<bytes>
    requires |s| == ScalarWidth(b)
  {
    NumberIsUnBE(s);
    PowValues();
    if b <= 0x7f then Uint(b)
    else if b >= 0xe0 then Int(b - 0x100)
    else if b == 0xc0 then Nil
    else if b == 0xc2 then Bool(false)
    else if b == 0xc3 then Bool(true)
    else if b == 0xca then Float32(Number(s))
    else if b == 0xcb then Float64(Number(s))
    else if b <= 0xcf then Uint(Number(s))
    else TwosComplementIsSigned(s); Int(TwosComplement(s))
  }

  /** A length: `inline` in the format byte itself where width is 0, else in the next `width` bytes. */
  datatype Length = Length(kind: Kind, width: nat, inline: nat)

  /** The length the other formats announce; 0xc1 announces none. */
  function LengthOf(b: byte): Length
    requires ScalarWidth(b) < 0 && b != 0xc1
  {
    if b <= 0x8f then Length(Kind.Map, 0, b - 0x80)
    else if b <= 0x9f then Length(Arr, 0, b - 0x90)
    else if b <= 0xbf then Length(Kind.Str, 0, b - 0xa0)
    else match b
      case 0xc4 => Length(Kind.Bin, 1, 0)
      case 0xc5 => Length(Kind.Bin, 2, 0)
      case 0xc6 => Length(Kind.Bin, 4, 0)
      case 0xc7 => Length(Kind.Ext, 1, 0)
      case 0xc8 => Length(Kind.Ext, 2, 0)
      case 0xc9 => Length(Kind.Ext, 4, 0)
      case 0xd4 => Length(Kind.Ext, 0, 1)
      case 0xd5 => Length(Kind.Ext, 0, 2)
      case 0xd6 => Length(Kind.Ext, 0, 4)
      case 0xd7 => Length(Kind.Ext, 0, 8)
      case 0xd8 => Length(Kind.Ext, 0, 16)
      case 0xd9 => Length(Kind.Str, 1, 0)
      case 0xda => Length(Kind.Str, 2, 0)
      case 0xdb => Length(Kind.Str, 4, 0)
      case 0xdc => Length(Arr, 2, 0)
      case 0xdd => Length(Arr, 4, 0)
      case 0xde => Length(Kind.Map, 2, 0)
      case _ => Length(Kind.Map, 4, 0)
  }

  /** `MaxStringLen`, `MaxBinaryLen`, `MaxArrayLen`, `MaxMapLen`, `MaxExtLen`. */
  function MaxLen(kind: Kind, cfg: Config): int {
    match kind
    case Str => cfg.maxStr
    case Bin => cfg.maxBin
    case Arr => cfg.maxArr
    case Map => cfg.maxMap
    case Ext => cfg.maxExt
  }

  // ---- the decoders ----

  /** `Decode`, `DecodeAny` up to its native form, and the depth-free copy. */
  function Read(m: Mode, data: bytes, pos: nat, cfg: Config, depth: int): (r: Res<Value<bytes>>)
    requires pos <= |data|
    ensures pos <= r.pos <= |data| && (r.Ok? ==> pos < r.pos)
    decreases |data| - pos, 0
  {
    if pos == |data| then Fail(UnexpectedEOF, pos)
    else
      var b, p := data[pos], pos + 1;
      var w := ScalarWidth(b);
      if b == 0xc1 then Fail(InvalidFormat, p)
      else if w >= 0 then
        if p + w > |data| then Fail(UnexpectedEOF, p) else Ok(ScalarValue(b, data[p..p + w]), p + w)
      else
        var length := LengthOf(b);
        var q := p + length.width;
        if length.kind.Ext? && !m.ValueMode? then Fail(InvalidFormat, p)
        else if q > |data| then Fail(UnexpectedEOF, p)
        else
          var n := if length.width == 0 then length.inline else Number(data[p..q]);
          ReadSized(m, data, q, length.kind, n, cfg, depth)
  }

  /** A value of n bytes, items or pairs; the limit is looked at first, then whether n bytes (2n for a map) are left. */
  function ReadSized(m: Mode, data: bytes, q: nat, kind: Kind, n: nat, cfg: Config, depth: int): (r: Res<Value<bytes>>)
    requires q <= |data|
    ensures q <= r.pos <= |data|
    decreases |data| - q, 3
  {
    if n > MaxLen(kind, cfg) then Fail(TooLong(kind), q)
    else if q + n > |data| || (kind.Map? && q + 2 * n > |data|) then Fail(UnexpectedEOF, q)
    else match kind
      case Str => Ok(Value.Str(data[q..q + n]), q + n)
      case Bin => Ok(Value.Bin(data[q..q + n]), q + n)
      case Ext =>
        if q == |data| then Fail(UnexpectedEOF, q)
        else if q + 1 + n > |data| then Fail(UnexpectedEOF, q + 1)
        else
          var t: int := data[q];
          Ok(Value.Ext(if t < 0x80 then t else t - 0x100, data[q + 1..q + 1 + n]), q + 1 + n)
      case _ =>
        if !m.TypedMode? && depth + 1 > cfg.maxDepth then Fail(MaxDepthExceeded, q)
        else
          var inner := if m.TypedMode? then depth else depth + 1;
          if kind.Arr? then
            match ReadItems(m, data, q, n, cfg, inner)
            case Fail(e, p) => Fail(e, p)
            case Ok(vs, p) => Ok(Array(vs), p)
          else
            match ReadPairs(m, data, q, n, cfg, inner)
            case Fail(e, p) => Fail(e, p)
            case Ok(kvs, p) => Ok(Value.Map(kvs), p)
  }

  /** n values, one behind the other. */
  function ReadItems(m: Mode, data: bytes, pos: nat, n: nat, cfg: Config, depth: int): (r: Res<seq<Value<bytes>>>)
    requires pos <= |data|
    ensures pos <= r.pos <= |data|
    decreases |data| - pos, 2, n
  {
    if n == 0 then Ok([], pos)
    else match Read(m, data, pos, cfg, depth)
      case Fail(e, p) => Fail(e, p)
      case Ok(v, p) => Before(v, ReadItems(m, data, p, n - 1, cfg, depth))
  }

  /** n keys, each with its value. */
  function ReadPairs(m: Mode, data: bytes, pos: nat, n: nat, cfg: Config, depth: int): (r: Res<seq<KV<bytes>>>)
    requires pos <= |data|
    ensures pos <= r.pos <= |data|
    decreases |data| - pos, 2, n
  {
    if n == 0 then Ok([], pos)
    else match ReadKey(m, data, pos, cfg, depth)
      case Fail(e, p) => Fail(e, p)
      case Ok(key, q) =>
        match Read(m, data, q, cfg, depth)
        case Fail(e, p) => Fail(e, p)
        case Ok(v, p) => Before(KV(key, v), ReadPairs(m, data, p, n - 1, cfg, depth))
  }

  function Before<T>(x: T, r: Res<seq<T>>): Res<seq<T>> {
    match r case Fail(e, p) => Fail(e, p) case Ok(xs, p) => Ok([x] + xs, p)
  }

  /** A key: any value for `Decode`, which keeps only strings; only a string for the others. */
  function ReadKey(m: Mode, data: bytes, pos: nat, cfg: Config, depth: int): (r: Res<Option<bytes>>)
    requires pos <= |data|
    ensures pos <= r.pos <= |data| && (r.Ok? ==> pos < r.pos)
    decreases |data| - pos, 1
  {
    if pos < |data| && !m.ValueMode? && !(0xa0 <= data[pos] <= 0xbf || 0xd9 <= data[pos] <= 0xdb) then
      Fail(if m.AnyMode? then InvalidFormat else TypeMismatch, pos + 1)
    else match Read(m, data, pos, cfg, depth)
      case Fail(e, p) => Fail(e, p)
      case Ok(v, p) => Ok(if v.Str? then Some(v.str) else None, p)
  }

  // ---- agreement ----

  /** What a decoder returns, its tree replaced by what the tree means. */
  ghost function Meaning(m: Mode, data: bytes, pos: nat, cfg: Config, depth: int): Res<Value<bytes>>
    requires pos <= |data|
  {
    match Parse(m, data, pos, cfg, depth)
    case Fail(e, p) => Fail(e, p)
    case Ok(w, p) => ParseExactly(m, data, pos, cfg, depth, w, p); Ok(Denote(w), p)
  }

  /** The same first bytes, widths and lengths. */
  lemma TableAgrees(b: byte)
    ensures ShapeOf(b).Unused? <==> b == 0xc1
    ensures ScalarWidth(b) >= 0 <==> ShapeOf(b).Scalar?
    ensures ShapeOf(b).Scalar? ==> ShapeOf(b).size == ScalarWidth(b)
    ensures ShapeOf(b).Counted? ==>
      var l := LengthOf(b);
      ShapeOf(b) == Counted(l.kind, if l.width == 0 then Inline(l.inline) else Following(l.width))
  {
  }

  lemma ScalarAgrees(b: byte, s: bytes)
    requires |s| == ScalarWidth(b)
    ensures ShapeOf(b) == Scalar(|s|) && ScalarOf(b, s) == ScalarValue(b, s)
  {
    TableAgrees(b);
    NumberIsUnBE(s);
    if 0xd0 <= b <= 0xd3 { TwosComplementIsSigned(s); }
  }

  lemma ScalarRead(m: Mode, data: bytes, pos: nat, cfg: Config, depth: int)
    requires pos < |data| && ShapeOf(data[pos]).Scalar?
    ensures Meaning(m, data, pos, cfg, depth) == Read(m, data, pos, cfg, depth)
  {
    hide ScalarValue, ScalarOf;
    var b, p := data[pos], pos + 1;
    TableAgrees(b);
    if p + ScalarWidth(b) <= |data| {
      var s := data[p..p + ScalarWidth(b)];
      ScalarAgrees(b, s);
      assert Legal(Leaf(b, s)) && Denote(Leaf(b, s)) == ScalarValue(b, s);
      assert Parse(m, data, pos, cfg, depth) == Ok(Leaf(b, s), p + |s|);
    } else {
      assert Parse(m, data, pos, cfg, depth) == Fail(UnexpectedEOF, p);
    }
  }

  /** A sized value as the table's decoder reads it, its length found through the shape of its first byte. */
  lemma SizedRead(m: Mode, data: bytes, pos: nat, cfg: Config, depth: int)
    requires pos < |data| && ShapeOf(data[pos]).Counted?
    ensures Read(m, data, pos, cfg, depth)
         == var kind, field := ShapeOf(data[pos]).kind, ShapeOf(data[pos]).field;
            var q := pos + 1 + Width(field);
            if (kind.Ext? && !m.ValueMode?) then Fail(InvalidFormat, pos + 1)
            else if q > |data| then Fail(UnexpectedEOF, pos + 1)
            else ReadSized(m, data, q, kind, CountFrom(field, data[pos + 1..q]), cfg, depth)
  {
    hide ReadSized, UnBE, Number;
    TableAgrees(data[pos]);
    var q := pos + 1 + Width(ShapeOf(data[pos]).field);
    if q <= |data| { NumberIsUnBE(data[pos + 1..q]); }
  }

  /** Every decoder, on every input: the parser with its trees read for their meaning is the decoder of the table. */
  lemma {:induction false} Agrees(m: Mode, data: bytes, pos: nat, cfg: Config, depth: int)
    requires pos <= |data|
    ensures Meaning(m, data, pos, cfg, depth) == Read(m, data, pos, cfg, depth)
    decreases |data| - pos, 1
  {
    hide Meaning, Read, ShapeOf;
    if pos == |data| {
      AtEnd(m, data, cfg, depth);
    } else if ShapeOf(data[pos]).Scalar? {
      ScalarRead(m, data, pos, cfg, depth);
    } else if ShapeOf(data[pos]).Unused? {
      UnusedRead(m, data, pos, cfg, depth);
    } else {
      CountedAgrees(m, data, pos, cfg, depth);
    }
  }

  /** The formats that announce a length. */
  lemma {:induction false} CountedAgrees(m: Mode, data: bytes, pos: nat, cfg: Config, depth: int)
    requires pos < |data| && ShapeOf(data[pos]).Counted?
    ensures Meaning(m, data, pos, cfg, depth) == Read(m, data, pos, cfg, depth)
    decreases |data| - pos, 0
  {
    hide Read, ReadSized, ParseCounted, Meaning, SameValue;
    var b, p := data[pos], pos + 1;
    var q := p + Width(ShapeOf(b).field);
    if q <= |data| && (ShapeOf(b).kind.Ext? ==> m.ValueMode?) {
      SizedAgrees(m, data, q, b, ShapeOf(b).kind, CountFrom(ShapeOf(b).field, data[p..q]), cfg, depth);
      SizedSame(m, data, pos, cfg, depth);
    } else {
      SizedCut(m, data, pos, cfg, depth);
    }
  }

  /** A legal tree and what it means, or the same failure. */
  ghost predicate SameValue(w: Res<Wire>, v: Res<Value<bytes>>) {
    match w
    case Fail(e, p) => v == Fail(e, p)
    case Ok(tree, p) => Legal(tree) && v == Ok(Denote(tree), p)
  }

  lemma SizedSame(m: Mode, data: bytes, pos: nat, cfg: Config, depth: int)
    requires pos < |data| && ShapeOf(data[pos]).Counted? && (ShapeOf(data[pos]).kind.Ext? ==> m.ValueMode?)
    requires pos + 1 + Width(ShapeOf(data[pos]).field) <= |data|
    requires var kind, field, q := ShapeOf(data[pos]).kind, ShapeOf(data[pos]).field,
                                   pos + 1 + Width(ShapeOf(data[pos]).field);
      var n := CountFrom(field, data[pos + 1..q]);
      SameValue(ParseCounted(m, data, q, data[pos], kind, n, cfg, depth), ReadSized(m, data, q, kind, n, cfg, depth))
    ensures Meaning(m, data, pos, cfg, depth) == Read(m, data, pos, cfg, depth)
  {
    hide Read, ReadSized, ParseCounted, Denote, Legal, CountFrom, ParseBody;
    SizedRead(m, data, pos, cfg, depth);
    CountKnown(m, data, pos + 1, data[pos], cfg, depth);
  }

  lemma SizedCut(m: Mode, data: bytes, pos: nat, cfg: Config, depth: int)
    requires pos < |data| && ShapeOf(data[pos]).Counted?
    requires (ShapeOf(data[pos]).kind.Ext? && !m.ValueMode?) || pos + 1 + Width(ShapeOf(data[pos]).field) > |data|
    ensures Meaning(m, data, pos, cfg, depth) == Read(m, data, pos, cfg, depth)
  {
    hide Read, ReadSized, ParseCounted, CountFrom;
    SizedRead(m, data, pos, cfg, depth);
    assert ParseBody(m, data, pos + 1, data[pos], cfg, depth).Fail?;
  }

  lemma AtEnd(m: Mode, data: bytes, cfg: Config, depth: int)
    ensures Meaning(m, data, |data|, cfg, depth) == Read(m, data, |data|, cfg, depth)
  {
  }

  lemma UnusedRead(m: Mode, data: bytes, pos: nat, cfg: Config, depth: int)
    requires pos < |data| && ShapeOf(data[pos]).Unused?
    ensures Meaning(m, data, pos, cfg, depth) == Read(m, data, pos, cfg, depth)
  {
    TableAgrees(data[pos]);
    assert ParseBody(m, data, pos + 1, data[pos], cfg, depth) == Fail(InvalidFormat, pos + 1);
  }

  lemma {:induction false} SizedAgrees(m: Mode, data: bytes, q: nat, b: byte, kind: Kind, n: nat, cfg: Config,
                                       depth: int)
    requires q <= |data| && ShapeOf(b).Counted? && ShapeOf(b).kind == kind && Holds(ShapeOf(b).field, n)
    requires kind.Ext? ==> m.ValueMode?
    ensures SameValue(ParseCounted(m, data, q, b, kind, n, cfg, depth), ReadSized(m, data, q, kind, n, cfg, depth))
    decreases |data| - q, 4
  {
    hide Flatten, FlattenAll, ParseAll, ReadItems, ReadPairs;
    SoundCounted(m, data, q, b, kind, ShapeOf(b).field, n, cfg, depth);
    if kind.Arr? {
      ItemsAgree(m, data, q, n, cfg, Deeper(m, depth));
    } else if kind.Map? {
      PairsAgree(m, data, q, n, cfg, Deeper(m, depth));
    } else if kind.Ext? && q + 1 + n <= |data| {
      PowValues();
      assert data[q..q + 1 + n][1..] == data[q + 1..q + 1 + n];
    }
  }

  lemma {:induction false} ItemsAgree(m: Mode, data: bytes, pos: nat, n: nat, cfg: Config, depth: int)
    requires pos <= |data|
    ensures match ParseAll(m, data, pos, n, false, cfg, depth)
      case Fail(e, p) => ReadItems(m, data, pos, n, cfg, depth) == Fail(e, p)
      case Ok(ws, p) => LegalAll(ws) && ReadItems(m, data, pos, n, cfg, depth) == Ok(DenoteAll(ws), p)
    decreases |data| - pos, 3, n
  {
    if n > 0 {
      ItemIsParse(m, data, pos, false, cfg, depth);
      Agrees(m, data, pos, cfg, depth);
      var first := Parse(m, data, pos, cfg, depth);
      if first.Ok? {
        ParseExactly(m, data, pos, cfg, depth, first.value, first.pos);
        ItemsAgree(m, data, first.pos, n - 1, cfg, depth);
        var rest := ParseAll(m, data, first.pos, n - 1, false, cfg, depth);
        if rest.Ok? {
          ConsAll(first.value, rest.value);
          assert ([first.value] + rest.value)[1..] == rest.value;
        }
      }
    }
  }

  /** 2n items with keys: a key, its value, and 2(n-1) more. */
  lemma TwoItems(m: Mode, data: bytes, pos: nat, n: nat, cfg: Config, depth: int)
    requires pos <= |data| && n > 0
    ensures ParseAll(m, data, pos, 2 * n, true, cfg, depth)
         == match ParseItem(m, data, pos, true, cfg, depth) {
              case Fail(e, p) => Fail(e, p)
              case Ok(k, q) =>
                match Parse(m, data, q, cfg, depth) {
                  case Fail(e, p) => Fail(e, p)
                  case Ok(w, p) => Prepend([k, w], ParseAll(m, data, p, 2 * (n - 1), true, cfg, depth))
                }
            }
  {
    hide ParseAll, ParseItem, Parse;
    StepTwo(m, data, pos, n, cfg, depth, []);
    PrependNone(ParseAll(m, data, pos, 2 * n, true, cfg, depth));
    var key := ParseItem(m, data, pos, true, cfg, depth);
    if key.Ok? {
      var val := Parse(m, data, key.pos, cfg, depth);
      if val.Ok? { assert [] + [key.value, val.value] == [key.value, val.value]; }
    }
  }

  /** 2n legal items that mean the n pairs, or the same failure. */
  ghost predicate SamePairs(ws: Res<seq<Wire>>, kvs: Res<seq<KV<bytes>>>, n: nat) {
    match ws
    case Fail(e, p) => kvs == Fail(e, p)
    case Ok(items, p) => LegalAll(items) && |items| == 2 * n && kvs == Ok(DenotePairs(items), p)
  }

  lemma {:induction false} PairsAgree(m: Mode, data: bytes, pos: nat, n: nat, cfg: Config, depth: int)
    requires pos <= |data|
    ensures SamePairs(ParseAll(m, data, pos, 2 * n, true, cfg, depth), ReadPairs(m, data, pos, n, cfg, depth), n)
    decreases |data| - pos, 3, n
  {
    hide ReadSized, ShapeOf, IsStr, Read, Parse, ReadKey, ParseItem, Denote, ParseAll, Legal, KeyOf, SamePairs;
    if n > 0 {
      TwoItems(m, data, pos, n, cfg, depth);
      KeyAgrees(m, data, pos, cfg, depth);
      var key := ParseItem(m, data, pos, true, cfg, depth);
      if key.Ok? {
        Agrees(m, data, key.pos, cfg, depth);
        var val := Parse(m, data, key.pos, cfg, depth);
        if val.Ok? {
          ParseExactly(m, data, key.pos, cfg, depth, val.value, val.pos);
          PairsAgree(m, data, val.pos, n - 1, cfg, depth);
          SameWithOneMore(key.value, val.value, ParseAll(m, data, val.pos, 2 * (n - 1), true, cfg, depth),
                          ReadPairs(m, data, val.pos, n - 1, cfg, depth), n);
        } else {
          SameFailure(val.err, val.pos, n);
        }
      } else {
        SameFailure(key.err, key.pos, n);
      }
    } else {
      SameNone(m, data, pos, cfg, depth);
    }
  }

  lemma SameNone(m: Mode, data: bytes, pos: nat, cfg: Config, depth: int)
    requires pos <= |data|
    ensures SamePairs(ParseAll(m, data, pos, 0, true, cfg, depth), ReadPairs(m, data, pos, 0, cfg, depth), 0)
  {
  }

  lemma SameFailure(e: Error, p: nat, n: nat)
    ensures SamePairs(Fail(e, p), Fail(e, p), n)
  {
  }

  lemma SameWithOneMore(k: Wire, w: Wire, ws: Res<seq<Wire>>, kvs: Res<seq<KV<bytes>>>, n: nat)
    requires Legal(k) && Legal(w) && n > 0 && SamePairs(ws, kvs, n - 1)
    ensures SamePairs(Prepend([k, w], ws), Before(KV(KeyOf(k), Denote(w)), kvs), n)
  {
    if ws.Ok? { TwoMore(k, w, ws.value); }
  }

  lemma TwoMore(k: Wire, w: Wire, rest: seq<Wire>)
    requires Legal(k) && Legal(w) && LegalAll(rest) && |rest| % 2 == 0
    ensures LegalAll([k, w] + rest)
    ensures DenotePairs([k, w] + rest) == [KV(KeyOf(k), Denote(w))] + DenotePairs(rest)
  {
    hide Denote, Legal, KeyOf, Flatten;
    var ws := [k, w] + rest;
    assert ws == [k] + ([w] + rest);
    LegalPair(k, w, rest);
    assert ws[1..][1..] == ws[2..] == rest;
  }

  lemma {:induction false} KeyAgrees(m: Mode, data: bytes, pos: nat, cfg: Config, depth: int)
    requires pos <= |data|
    ensures match ParseItem(m, data, pos, true, cfg, depth)
      case Fail(e, p) => ReadKey(m, data, pos, cfg, depth) == Fail(e, p)
      case Ok(k, p) => Legal(k) && ReadKey(m, data, pos, cfg, depth) == Ok(KeyOf(k), p)
    decreases |data| - pos, 2
  {
    hide ParseBody, Fits;
    if pos == |data| {
      assert ParseItem(m, data, pos, true, cfg, depth) == Parse(m, data, pos, cfg, depth);
    } else {
      TableAgrees(data[pos]);
      Unfold(m, data, pos, true, cfg, depth);
      Agrees(m, data, pos, cfg, depth);
      SoundBody(m, data, pos + 1, data[pos], cfg, depth);
    }
  }

  /** `Decode` is the decoder of the table. */
  lemma DecodeAgrees(data: bytes, pos: nat, cfg: Config, depth: int)
    requires pos <= |data|
    ensures DecodeOf(data, pos, cfg, depth) == Read(ValueMode, data, pos, cfg, depth)
  {
    Agrees(ValueMode, data, pos, cfg, depth);
  }

  /** `DecodeAny` and its depth-free copy give the Go value for what the table's decoder reads, or its failure. */
  lemma NativeAgrees(m: Mode, data: bytes, pos: nat, cfg: Config, depth: int)
    requires pos <= |data|
    ensures match Read(m, data, pos, cfg, depth)
      case Fail(e, p) => NativeRes(m, data, pos, cfg, depth) == Fail(e, p)
      case Ok(v, p) =>
        var r := NativeRes(m, data, pos, cfg, depth);
        r.Ok? && r.pos == p && Represents(v, r.value)
  {
    hide Parse, Represents;
    Agrees(m, data, pos, cfg, depth);
    var r := Read(m, data, pos, cfg, depth);
    if r.Ok? { NativeMeans(r.value); }
  }
}
