/** The parsers accept exactly the trees of the grammar that meet the limits, and nothing else. */
module Grammar {
  import opened Bytes
  import opened Format
  import opened Wire

  /** One step of the parsers, spelled out. */
  lemma Unfold(m: Mode, data: bytes, pos: nat, isKey: bool, cfg: Config, depth: int)
    requires pos < |data|
    ensures Parse(m, data, pos, cfg, depth) == ParseBody(m, data, pos + 1, data[pos], cfg, depth)
    ensures ParseItem(m, data, pos, isKey, cfg, depth)
         == if isKey && !m.ValueMode? && !IsStr(data[pos])
            then Fail(if m.AnyMode? then InvalidFormat else TypeMismatch, pos + 1)
            else ParseBody(m, data, pos + 1, data[pos], cfg, depth)
  {
    var r := Parse(m, data, pos, cfg, depth);
  }

  lemma ConsAll(w: Wire, ws: seq<Wire>)
    ensures LegalAll([w] + ws) <==> Legal(w) && LegalAll(ws)
    ensures FlattenAll([w] + ws) == Flatten(w) + FlattenAll(ws)
  {
    assert ([w] + ws)[1..] == ws;
  }

  lemma ConsFits(m: Mode, w: Wire, ws: seq<Wire>, keyed: bool, cfg: Config, depth: int)
    ensures FitsAll(m, [w] + ws, keyed, cfg, depth)
       <==> && Fits(m, w, cfg, depth)
            && (AtKey(keyed, 1 + |ws|) && !m.ValueMode? ==> IsStr(w.format))
            && FitsAll(m, ws, keyed, cfg, depth)
  {
    assert ([w] + ws)[1..] == ws;
  }

  // ---- soundness: what a parser returns is derivable, within the limits, and is what was read ----

  lemma {:induction false} SoundBody(m: Mode, data: bytes, pos: nat, format: byte, cfg: Config, depth: int)
    requires pos <= |data|
    ensures var r := ParseBody(m, data, pos, format, cfg, depth);
            r.Ok? ==>
              && r.value.format == format && Legal(r.value) && Fits(m, r.value, cfg, depth)
              && data[pos..r.pos] == Body(r.value)
    decreases |data| - pos, 4
  {
    hide ParseCounted;
    var r := ParseBody(m, data, pos, format, cfg, depth);
    if r.Ok? && ShapeOf(format).Counted? {
      var field := ShapeOf(format).field;
      var p := pos + Width(field);
      var n := CountFrom(field, data[pos..p]);
      SoundCounted(m, data, p, format, ShapeOf(format).kind, field, n, cfg, depth);
      CountRoundTrip(field, n, data[pos..p]);
      Split(data, pos, p, r.pos);
    }
  }

  lemma {:induction false} SoundCounted(m: Mode, data: bytes, pos: nat, format: byte, kind: Kind, field: CountField,
                                        n: nat, cfg: Config, depth: int)
    requires pos <= |data| && ShapeOf(format) == Counted(kind, field) && Holds(field, n)
    requires kind.Ext? ==> m.ValueMode?
    ensures var r := ParseCounted(m, data, pos, format, kind, n, cfg, depth);
            r.Ok? ==>
              && r.value.format == format && Legal(r.value) && Fits(m, r.value, cfg, depth) && Count(r.value) == n
              && data[pos..r.pos] == Payload(r.value)
    decreases |data| - pos, 3
  {
    var r := ParseCounted(m, data, pos, format, kind, n, cfg, depth);
    if r.Ok? && (kind.Arr? || kind.Map?) {
      SoundAll(m, data, pos, Units(kind, n), kind.Map?, cfg, Deeper(m, depth));
      assert r.value.kids == ParseAll(m, data, pos, Units(kind, n), kind.Map?, cfg, Deeper(m, depth)).value;
    }
  }

  lemma {:induction false} SoundAll(m: Mode, data: bytes, pos: nat, n: nat, keyed: bool, cfg: Config, depth: int)
    requires pos <= |data|
    ensures var r := ParseAll(m, data, pos, n, keyed, cfg, depth);
            r.Ok? ==>
              && |r.value| == n && LegalAll(r.value) && FitsAll(m, r.value, keyed, cfg, depth)
              && data[pos..r.pos] == FlattenAll(r.value)
    decreases |data| - pos, 2, n
  {
    var r := ParseAll(m, data, pos, n, keyed, cfg, depth);
    if r.Ok? && n > 0 {
      var first := ParseItem(m, data, pos, AtKey(keyed, n), cfg, depth);
      SoundItem(m, data, pos, AtKey(keyed, n), cfg, depth);
      var rest := ParseAll(m, data, first.pos, n - 1, keyed, cfg, depth);
      SoundAll(m, data, first.pos, n - 1, keyed, cfg, depth);
      assert r.value == [first.value] + rest.value;
      ConsAll(first.value, rest.value);
      ConsFits(m, first.value, rest.value, keyed, cfg, depth);
      Split(data, pos, first.pos, r.pos);
    }
  }

  lemma {:induction false} SoundItem(m: Mode, data: bytes, pos: nat, isKey: bool, cfg: Config, depth: int)
    requires pos <= |data|
    ensures var r := ParseItem(m, data, pos, isKey, cfg, depth);
            r.Ok? ==>
              && Legal(r.value) && Fits(m, r.value, cfg, depth)
              && (isKey && !m.ValueMode? ==> IsStr(r.value.format))
              && data[pos..r.pos] == Flatten(r.value)
    decreases |data| - pos, 1
  {
    hide ParseBody, Body;
    var r := ParseItem(m, data, pos, isKey, cfg, depth);
    if pos < |data| {
      Unfold(m, data, pos, isKey, cfg, depth);
      SoundBody(m, data, pos + 1, data[pos], cfg, depth);
      if r.Ok? {
        assert data[pos..r.pos] == [data[pos]] + data[pos + 1..r.pos];
        assert Flatten(r.value) == [data[pos]] + Body(r.value);
      }
    } else {
      assert r == Parse(m, data, pos, cfg, depth);
    }
  }

  // ---- completeness: every derivable tree within the limits is read, whatever follows it ----

  lemma {:induction false} CompleteBody(m: Mode, data: bytes, pos: nat, w: Wire, cfg: Config, depth: int)
    requires Legal(w) && Fits(m, w, cfg, depth) && At(data, pos, Body(w))
    ensures ParseBody(m, data, pos, w.format, cfg, depth) == Ok(w, pos + |Body(w)|)
    decreases w, 1
  {
    hide ShapeOf, BE, UnBE, At, ParseCounted, FlattenAll;
    AtConcat(data, pos, CountPart(w), Payload(w));
    AtSlice(data, pos, Body(w));
    AtSlice(data, pos, CountPart(w));
    if w.Shape().Counted? {
      var field, n := w.Shape().field, Count(w);
      var p := pos + Width(field);
      CountRoundTrip(field, n, data[pos..p]);
      CompleteCounted(m, data, p, w, cfg, depth);
    } else {
      assert Body(w) == Payload(w);
    }
  }

  lemma {:induction false} CompleteCounted(m: Mode, data: bytes, pos: nat, w: Wire, cfg: Config, depth: int)
    requires w.Shape().Counted? && Legal(w) && Fits(m, w, cfg, depth) && At(data, pos, Payload(w))
    ensures ParseCounted(m, data, pos, w.format, w.Shape().kind, Count(w), cfg, depth) == Ok(w, pos + |Payload(w)|)
    decreases w, 0
  {
    var kind := w.Shape().kind;
    AtSlice(data, pos, Payload(w));
    if w.Node? {
      CompleteAll(m, data, pos, w.kids, kind.Map?, cfg, Deeper(m, depth));
    }
  }

  lemma {:induction false} CompleteAll(m: Mode, data: bytes, pos: nat, ws: seq<Wire>, keyed: bool, cfg: Config,
                                       depth: int)
    requires LegalAll(ws) && FitsAll(m, ws, keyed, cfg, depth) && At(data, pos, FlattenAll(ws))
    ensures ParseAll(m, data, pos, |ws|, keyed, cfg, depth) == Ok(ws, pos + |FlattenAll(ws)|)
    decreases ws, 0
  {
    hide Legal, LegalAll;
    if ws != [] {
      var w, rest, isKey := ws[0], ws[1..], AtKey(keyed, |ws|);
      assert ws == [w] + rest;
      ConsAll(w, rest);
      ConsFits(m, w, rest, keyed, cfg, depth);
      AtConcat(data, pos, Flatten(w), FlattenAll(rest));
      CompleteItem(m, data, pos, w, isKey, cfg, depth);
      CompleteAll(m, data, pos + |Flatten(w)|, rest, keyed, cfg, depth);
    }
  }

  lemma {:induction false} CompleteItem(m: Mode, data: bytes, pos: nat, w: Wire, isKey: bool, cfg: Config, depth: int)
    requires Legal(w) && Fits(m, w, cfg, depth) && At(data, pos, Flatten(w))
    requires isKey && !m.ValueMode? ==> IsStr(w.format)
    ensures ParseItem(m, data, pos, isKey, cfg, depth) == Ok(w, pos + |Flatten(w)|)
    decreases w, 2
  {
    hide ParseBody, Legal, LegalAll, Fits;
    AtConcat(data, pos, [w.format], Body(w));
    CompleteBody(m, data, pos + 1, w, cfg, depth);
    Unfold(m, data, pos, isKey, cfg, depth);
  }

  /** Grammar soundness and completeness in one statement. */
  lemma ParseExactly(m: Mode, data: bytes, pos: nat, cfg: Config, depth: int, w: Wire, end: nat)
    requires pos <= |data|
    ensures Parse(m, data, pos, cfg, depth) == Ok(w, end)
       <==> Legal(w) && Fits(m, w, cfg, depth) && At(data, pos, Flatten(w)) && end == pos + |Flatten(w)|
  {
    AtSlice(data, pos, Flatten(w));
    if Parse(m, data, pos, cfg, depth) == Ok(w, end) {
      Unfold(m, data, pos, false, cfg, depth);
      SoundItem(m, data, pos, false, cfg, depth);
    }
    if Legal(w) && Fits(m, w, cfg, depth) && At(data, pos, Flatten(w)) {
      CompleteItem(m, data, pos, w, false, cfg, depth);
      Unfold(m, data, pos, false, cfg, depth);
    }
  }

  // ---- extension and truncation ----

  /** The outcome does not depend on bytes beyond the end of data. */
  ghost predicate Stable<T>(short: Res<T>, long: Res<T>) {
    short == long || (short.Fail? && short.err.UnexpectedEOF?)
  }

  lemma {:induction false} ExtendBody(m: Mode, data: bytes, more: bytes, pos: nat, format: byte, cfg: Config,
                                      depth: int)
    requires pos <= |data|
    ensures Stable(ParseBody(m, data, pos, format, cfg, depth), ParseBody(m, data + more, pos, format, cfg, depth))
    decreases |data| - pos, 4
  {
    match ShapeOf(format)
    case Unused =>
    case Scalar(k) =>
      if pos + k <= |data| { assert (data + more)[pos..pos + k] == data[pos..pos + k]; }
    case Counted(kind, field) =>
      var p := pos + Width(field);
      if p <= |data| {
        assert (data + more)[pos..p] == data[pos..p];
        ExtendCounted(m, data, more, p, format, kind, CountFrom(field, data[pos..p]), cfg, depth);
      }
  }

  lemma {:induction false} ExtendCounted(m: Mode, data: bytes, more: bytes, pos: nat, format: byte, kind: Kind, n: nat,
                                         cfg: Config, depth: int)
    requires pos <= |data|
    ensures Stable(ParseCounted(m, data, pos, format, kind, n, cfg, depth),
                   ParseCounted(m, data + more, pos, format, kind, n, cfg, depth))
    decreases |data| - pos, 3
  {
    if n <= cfg.Limit(kind) && pos + Needed(kind, n) <= |data| {
      assert (data + more)[pos..pos + n] == data[pos..pos + n];
      if pos + 1 + n <= |data| { assert (data + more)[pos..pos + 1 + n] == data[pos..pos + 1 + n]; }
      if kind.Arr? || kind.Map? {
        ExtendAll(m, data, more, pos, Units(kind, n), kind.Map?, cfg, Deeper(m, depth));
      }
    }
  }

  lemma {:induction false} ExtendAll(m: Mode, data: bytes, more: bytes, pos: nat, n: nat, keyed: bool, cfg: Config,
                                     depth: int)
    requires pos <= |data|
    ensures Stable(ParseAll(m, data, pos, n, keyed, cfg, depth), ParseAll(m, data + more, pos, n, keyed, cfg, depth))
    decreases |data| - pos, 2, n
  {
    if n > 0 && pos == |data| {
      assert ParseItem(m, data, pos, AtKey(keyed, n), cfg, depth) == Parse(m, data, pos, cfg, depth);
    } else if n > 0 {
      ExtendBody(m, data, more, pos + 1, data[pos], cfg, depth);
      Unfold(m, data, pos, AtKey(keyed, n), cfg, depth);
      Unfold(m, data + more, pos, AtKey(keyed, n), cfg, depth);
      var first := ParseItem(m, data, pos, AtKey(keyed, n), cfg, depth);
      assert (data + more)[pos] == data[pos];
      assert Stable(first, ParseItem(m, data + more, pos, AtKey(keyed, n), cfg, depth));
      if first.Ok? {
        ExtendAll(m, data, more, first.pos, n - 1, keyed, cfg, depth);
      }
    }
  }

  /** Appending bytes changes neither a success nor any error but the end-of-input error. */
  lemma Extension(m: Mode, data: bytes, more: bytes, pos: nat, cfg: Config, depth: int)
    requires pos <= |data|
    ensures Stable(Parse(m, data, pos, cfg, depth), Parse(m, data + more, pos, cfg, depth))
  {
    if pos < |data| {
      ExtendBody(m, data, more, pos + 1, data[pos], cfg, depth);
    }
  }

  /** Every proper prefix of an accepted input fails, and only with the end-of-input error. */
  lemma Truncation(m: Mode, data: bytes, pos: nat, cfg: Config, depth: int, cut: nat)
    requires pos <= cut <= |data|
    requires Parse(m, data, pos, cfg, depth).Ok? && cut < Parse(m, data, pos, cfg, depth).pos
    ensures Parse(m, data[..cut], pos, cfg, depth).Fail?
    ensures Parse(m, data[..cut], pos, cfg, depth).err.UnexpectedEOF?
  {
    assert data == data[..cut] + data[cut..];
    Extension(m, data[..cut], data[cut..], pos, cfg, depth);
  }

  // ---- first bytes and unique reading ----

  /** 0xc1 is the only byte no tree starts with. */
  lemma OnlyC1IsUnused(b: byte)
    ensures b != 0xc1 <==> exists w :: Legal(w) && w.format == b
  {
    if b != 0xc1 {
      var n := if ShapeOf(b).Scalar? then ShapeOf(b).size
               else match ShapeOf(b).field { case Inline(k) => Units(ShapeOf(b).kind, k)
                                             case Following(_) => Units(ShapeOf(b).kind, 0) };
      var w := if ShapeOf(b).Counted? && (ShapeOf(b).kind.Arr? || ShapeOf(b).kind.Map?)
               then Node(b, Nils(n)) else Leaf(b, seq(n, _ => 0));
      assert Legal(w) && w.format == b;
    }
  }

  ghost function Nils(n: nat): (ws: seq<Wire>)
    ensures |ws| == n && LegalAll(ws)
  {
    if n == 0 then [] else ConsAll(Leaf(NIL, []), Nils(n - 1)); [Leaf(NIL, [])] + Nils(n - 1)
  }

  /** A limit of `size` everywhere admits every legal tree no longer than that. */
  lemma {:induction false} Roomy(w: Wire, size: nat, depth: nat)
    requires Legal(w) && depth + |Flatten(w)| <= size
    ensures Fits(ValueMode, w, Config(size, size, size, size, size, size), depth)
    decreases w, 1
  {
    assert Flatten(w) == [w.format] + (CountPart(w) + Payload(w));
    if w.Node? { RoomyAll(w.kids, w.Shape().kind.Map?, size, depth + 1); }
  }

  lemma {:induction false} RoomyAll(ws: seq<Wire>, keyed: bool, size: nat, depth: nat)
    requires LegalAll(ws) && depth + |FlattenAll(ws)| <= size
    ensures FitsAll(ValueMode, ws, keyed, Config(size, size, size, size, size, size), depth)
    decreases ws, 0
  {
    if ws != [] {
      Roomy(ws[0], size, depth);
      RoomyAll(ws[1..], keyed, size, depth);
    }
  }

  /** Two trees that start the same byte string are the same tree: no encoding is a proper prefix of another. */
  lemma UniqueReading(w1: Wire, rest1: bytes, w2: Wire, rest2: bytes)
    requires Legal(w1) && Legal(w2) && Flatten(w1) + rest1 == Flatten(w2) + rest2
    ensures w1 == w2 && rest1 == rest2
  {
    var data := Flatten(w1) + rest1;
    var size := |data|;
    var cfg := Config(size, size, size, size, size, size);
    Roomy(w1, size, 0);
    Roomy(w2, size, 0);
    assert At(data, 0, Flatten(w1)) by { AtSlice(data, 0, Flatten(w1)); }
    assert At(data, 0, Flatten(w2)) by { AtSlice(data, 0, Flatten(w2)); assert data[0..|Flatten(w2)|] == Flatten(w2); }
    ParseExactly(ValueMode, data, 0, cfg, 0, w1, |Flatten(w1)|);
    ParseExactly(ValueMode, data, 0, cfg, 0, w2, |Flatten(w2)|);
    assert rest1 == data[|Flatten(w1)|..] == rest2;
  }

  /** Where a legal tree stands, a decoder reads that tree or fails, as its limits have it. */
  lemma ReadExactly(m: Mode, w: Wire, data: bytes, pos: nat, cfg: Config, depth: int)
    requires Legal(w) && At(data, pos, Flatten(w)) && pos <= |data|
    ensures Parse(m, data, pos, cfg, depth).Ok? <==> Fits(m, w, cfg, depth)
    ensures Fits(m, w, cfg, depth) ==> Parse(m, data, pos, cfg, depth) == Ok(w, pos + |Flatten(w)|)
  {
    hide At, Flatten, Fits, Parse;
    ParseExactly(m, data, pos, cfg, depth, w, pos + |Flatten(w)|);
    var r := Parse(m, data, pos, cfg, depth);
    if r.Ok? {
      ParseExactly(m, data, pos, cfg, depth, r.value, r.pos);
      SameStart(w, r.value, data, pos);
    }
  }

  /** Legal trees in the same place are the same tree. */
  lemma SameStart(w1: Wire, w2: Wire, data: bytes, pos: nat)
    requires Legal(w1) && Legal(w2) && At(data, pos, Flatten(w1)) && At(data, pos, Flatten(w2))
    ensures w1 == w2
  {
    hide At, Flatten, Legal;
    var end1, end2 := pos + |Flatten(w1)|, pos + |Flatten(w2)|;
    AtSlice(data, pos, Flatten(w1));
    AtSlice(data, pos, Flatten(w2));
    Split(data, pos, end1, |data|);
    Split(data, pos, end2, |data|);
    UniqueReading(w1, data[end1..], w2, data[end2..]);
  }

  // ---- the three decoders against each other ----

  /** No ext anywhere and every map key a string. */
  predicate Plain(w: Wire)
    decreases w, 1
  {
    (w.Shape().Counted? ==> !w.Shape().kind.Ext?)
    && (w.Node? && w.Shape().Counted? ==> PlainAll(w.kids, w.Shape().kind.Map?))
  }

  predicate PlainAll(ws: seq<Wire>, keyed: bool)
    decreases ws, 0
  {
    ws == [] ||
    (Plain(ws[0]) && (AtKey(keyed, |ws|) ==> IsStr(ws[0].format)) && PlainAll(ws[1..], keyed))
  }

  /** How deep containers nest, map keys included. */
  function Nest(w: Wire): nat
    decreases w, 1
  {
    match w case Leaf(_, _) => 0 case Node(_, ks) => 1 + NestAll(ks)
  }

  function NestAll(ws: seq<Wire>): nat
    decreases ws, 0
  {
    if ws == [] then 0 else if Nest(ws[0]) > NestAll(ws[1..]) then Nest(ws[0]) else NestAll(ws[1..])
  }

  ghost predicate DepthRoom(nest: nat, cfg: Config, depth: int) {
    nest > 0 ==> depth + nest <= cfg.maxDepth
  }

  lemma {:induction false} FitsAnyMode(w: Wire, cfg: Config, depth: int, depth': int)
    requires Legal(w)
    ensures Fits(AnyMode, w, cfg, depth) <==> Fits(ValueMode, w, cfg, depth) && Plain(w)
    ensures Fits(AnyMode, w, cfg, depth) <==> Fits(TypedMode, w, cfg, depth') && DepthRoom(Nest(w), cfg, depth)
    decreases w, 1
  {
    if w.Node? { FitsAllAnyMode(w.kids, w.Shape().kind.Map?, cfg, depth + 1, depth'); }
  }

  lemma {:induction false} FitsAllAnyMode(ws: seq<Wire>, keyed: bool, cfg: Config, depth: int, depth': int)
    requires LegalAll(ws)
    ensures FitsAll(AnyMode, ws, keyed, cfg, depth)
       <==> FitsAll(ValueMode, ws, keyed, cfg, depth) && PlainAll(ws, keyed)
    ensures FitsAll(AnyMode, ws, keyed, cfg, depth)
       <==> FitsAll(TypedMode, ws, keyed, cfg, depth') && DepthRoom(NestAll(ws), cfg, depth)
    decreases ws, 0
  {
    if ws != [] {
      FitsAnyMode(ws[0], cfg, depth, depth');
      FitsAllAnyMode(ws[1..], keyed, cfg, depth, depth');
    }
  }

  /** `DecodeAny` accepts what `Decode` accepts, ext values and non-string keys excepted, and reads it alike. */
  lemma AnyAgainstValue(data: bytes, pos: nat, cfg: Config, depth: int, w: Wire, end: nat)
    requires pos <= |data|
    ensures Parse(AnyMode, data, pos, cfg, depth) == Ok(w, end)
       <==> Parse(ValueMode, data, pos, cfg, depth) == Ok(w, end) && Plain(w)
  {
    ParseExactly(AnyMode, data, pos, cfg, depth, w, end);
    ParseExactly(ValueMode, data, pos, cfg, depth, w, end);
    if Legal(w) { FitsAnyMode(w, cfg, depth, depth); }
  }

  /** Where the first fails, the second fails likewise, or the first took a format for invalid and stopped no later. */
  ghost predicate FailsAlike<T>(any: Res<T>, val: Res<T>) {
    any.Fail? ==> any == val || (any.err == InvalidFormat && any.pos <= val.pos)
  }

  lemma {:induction false} AlikeBody(data: bytes, pos: nat, format: byte, cfg: Config, depth: int)
    requires pos <= |data|
    ensures FailsAlike(ParseBody(AnyMode, data, pos, format, cfg, depth),
                       ParseBody(ValueMode, data, pos, format, cfg, depth))
    decreases |data| - pos, 4
  {
    if ShapeOf(format).Counted? {
      var kind, field := ShapeOf(format).kind, ShapeOf(format).field;
      var p := pos + Width(field);
      if p <= |data| && (kind.Arr? || kind.Map?) {
        AlikeAll(data, p, Units(kind, CountFrom(field, data[pos..p])), kind.Map?, cfg, depth + 1);
      }
    }
  }

  lemma {:induction false} AlikeAll(data: bytes, pos: nat, n: nat, keyed: bool, cfg: Config, depth: int)
    requires pos <= |data|
    ensures FailsAlike(ParseAll(AnyMode, data, pos, n, keyed, cfg, depth),
                       ParseAll(ValueMode, data, pos, n, keyed, cfg, depth))
    decreases |data| - pos, 2, n
  {
    if n > 0 && pos == |data| {
      assert ParseItem(AnyMode, data, pos, AtKey(keyed, n), cfg, depth) == Parse(AnyMode, data, pos, cfg, depth);
      assert ParseItem(ValueMode, data, pos, AtKey(keyed, n), cfg, depth) == Parse(ValueMode, data, pos, cfg, depth);
    } else if n > 0 {
      var first := ParseItem(AnyMode, data, pos, AtKey(keyed, n), cfg, depth);
      AlikeBody(data, pos + 1, data[pos], cfg, depth);
      Unfold(AnyMode, data, pos, AtKey(keyed, n), cfg, depth);
      Unfold(ValueMode, data, pos, AtKey(keyed, n), cfg, depth);
      if first.Ok? {
        AnyAgainstValue(data, pos, cfg, depth, first.value, first.pos);
        AlikeAll(data, first.pos, n - 1, keyed, cfg, depth);
      }
    }
  }

  /**
   `DecodeAny` fails with the error of `Decode` at its place, or for an invalid format no later than `Decode` stops.
   */
  lemma AnyFailsLikeValue(data: bytes, pos: nat, cfg: Config, depth: int)
    requires pos <= |data|
    ensures FailsAlike(Parse(AnyMode, data, pos, cfg, depth), Parse(ValueMode, data, pos, cfg, depth))
  {
    if pos < |data| { AlikeBody(data, pos + 1, data[pos], cfg, depth); }
  }

  /** Unless the first fails for its depth, both fail at the same place; a bad key is a mismatch to the second. */
  ghost predicate FailsLikewise<T>(any: Res<T>, typed: Res<T>) {
    any.Fail? && any.err != MaxDepthExceeded ==>
      && typed.Fail? && typed.pos == any.pos
      && (typed.err == any.err || (any.err == InvalidFormat && typed.err == TypeMismatch))
  }

  lemma {:induction false} LikewiseBody(data: bytes, pos: nat, format: byte, cfg: Config, depth: int, depth': int)
    requires pos <= |data|
    ensures FailsLikewise(ParseBody(AnyMode, data, pos, format, cfg, depth),
                          ParseBody(TypedMode, data, pos, format, cfg, depth'))
    decreases |data| - pos, 4
  {
    if ShapeOf(format).Counted? {
      var kind, field := ShapeOf(format).kind, ShapeOf(format).field;
      var p := pos + Width(field);
      if p <= |data| {
        LikewiseCounted(data, p, format, kind, CountFrom(field, data[pos..p]), cfg, depth, depth');
      }
    }
  }

  lemma {:induction false} LikewiseCounted(data: bytes, pos: nat, format: byte, kind: Kind, n: nat, cfg: Config,
                                           depth: int, depth': int)
    requires pos <= |data|
    ensures FailsLikewise(ParseCounted(AnyMode, data, pos, format, kind, n, cfg, depth),
                          ParseCounted(TypedMode, data, pos, format, kind, n, cfg, depth'))
    decreases |data| - pos, 3
  {
    if kind.Arr? || kind.Map? {
      LikewiseAll(data, pos, Units(kind, n), kind.Map?, cfg, Deeper(AnyMode, depth), Deeper(TypedMode, depth'));
    }
  }

  lemma {:induction false} LikewiseAll(data: bytes, pos: nat, n: nat, keyed: bool, cfg: Config, depth: int, depth': int)
    requires pos <= |data|
    ensures FailsLikewise(ParseAll(AnyMode, data, pos, n, keyed, cfg, depth),
                          ParseAll(TypedMode, data, pos, n, keyed, cfg, depth'))
    decreases |data| - pos, 2, n
  {
    if n > 0 && pos == |data| {
      assert ParseItem(AnyMode, data, pos, AtKey(keyed, n), cfg, depth) == Parse(AnyMode, data, pos, cfg, depth);
      assert ParseItem(TypedMode, data, pos, AtKey(keyed, n), cfg, depth') == Parse(TypedMode, data, pos, cfg, depth');
    } else if n > 0 {
      var first := ParseItem(AnyMode, data, pos, AtKey(keyed, n), cfg, depth);
      LikewiseBody(data, pos + 1, data[pos], cfg, depth, depth');
      Unfold(AnyMode, data, pos, AtKey(keyed, n), cfg, depth);
      Unfold(TypedMode, data, pos, AtKey(keyed, n), cfg, depth');
      if first.Ok? {
        AnyAgainstTyped(data, pos, cfg, depth, depth', first.value, first.pos);
        LikewiseAll(data, first.pos, n - 1, keyed, cfg, depth, depth');
      }
    }
  }

  /** The depth-free copy fails where `DecodeAny` fails for anything but its depth. */
  lemma TypedFailsLikeAny(data: bytes, pos: nat, cfg: Config, depth: int, depth': int)
    requires pos <= |data|
    ensures FailsLikewise(Parse(AnyMode, data, pos, cfg, depth), Parse(TypedMode, data, pos, cfg, depth'))
  {
    if pos < |data| { LikewiseBody(data, pos + 1, data[pos], cfg, depth, depth'); }
  }

  /** The depth-free copy agrees with `DecodeAny` exactly on the trees whose nesting the depth limit leaves room for. */
  lemma AnyAgainstTyped(data: bytes, pos: nat, cfg: Config, depth: int, depth': int, w: Wire, end: nat)
    requires pos <= |data|
    ensures Parse(AnyMode, data, pos, cfg, depth) == Ok(w, end)
       <==> Parse(TypedMode, data, pos, cfg, depth') == Ok(w, end) && DepthRoom(Nest(w), cfg, depth)
  {
    ParseExactly(AnyMode, data, pos, cfg, depth, w, end);
    ParseExactly(TypedMode, data, pos, cfg, depth', w, end);
    if Legal(w) { FitsAnyMode(w, cfg, depth, depth'); }
  }

  lemma {:induction false} FitsDepth(m: Mode, w: Wire, cfg: Config, depth: int, depth': int)
    requires Legal(w) && !m.TypedMode? && Fits(m, w, cfg, depth)
    ensures DepthRoom(Nest(w), cfg, depth)
    ensures Fits(m, w, cfg, depth') <==> DepthRoom(Nest(w), cfg, depth')
    decreases w, 1
  {
    if w.Node? { FitsAllDepth(m, w.kids, w.Shape().kind.Map?, cfg, depth + 1, depth' + 1); }
  }

  lemma {:induction false} FitsAllDepth(m: Mode, ws: seq<Wire>, keyed: bool, cfg: Config, depth: int, depth': int)
    requires LegalAll(ws) && !m.TypedMode? && FitsAll(m, ws, keyed, cfg, depth)
    ensures DepthRoom(NestAll(ws), cfg, depth)
    ensures FitsAll(m, ws, keyed, cfg, depth') <==> DepthRoom(NestAll(ws), cfg, depth')
    decreases ws, 0
  {
    if ws != [] {
      FitsDepth(m, ws[0], cfg, depth, depth');
      FitsAllDepth(m, ws[1..], keyed, cfg, depth, depth');
    }
  }

  /** An accepted tree never nests deeper than the limit, and a parse repeats at any depth with the room. */
  lemma ParseDepth(m: Mode, data: bytes, pos: nat, cfg: Config, depth: int, depth': int, w: Wire, end: nat)
    requires pos <= |data| && !m.TypedMode? && Parse(m, data, pos, cfg, depth) == Ok(w, end)
    ensures DepthRoom(Nest(w), cfg, depth)
    ensures Parse(m, data, pos, cfg, depth') == Ok(w, end) <==> DepthRoom(Nest(w), cfg, depth')
  {
    ParseExactly(m, data, pos, cfg, depth, w, end);
    ParseExactly(m, data, pos, cfg, depth', w, end);
    FitsDepth(m, w, cfg, depth, depth');
  }
}
