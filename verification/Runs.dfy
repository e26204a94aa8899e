/** Whole runs from a fresh decoder or encoder: what a caller of the library can rely on. */
module Runs {
  import opened Bytes
  import opened Wire
  import opened Values
  import opened Canonical
  import opened Allocation
  import opened Decoding
  import opened EncoderModule
  import opened Natives
  import opened NativeRoundTrip
  import opened AnyCodec

  /** The bounds on slots, from a fresh decoder. */
  lemma {:induction false} FreshBound(data: bytes, cfg: Config)
    ensures var slots, r := Spent(data, 0, cfg, 0), Parse(ValueMode, data, 0, cfg, 0);
      if r.Ok? then slots == Slots(r.value) && (slots > 0 ==> slots < r.pos)
      else slots <= (if cfg.maxDepth >= 0 then cfg.maxDepth + 1 else 1) * |data|
  {
    hide Parse, Spent, Slots, Budget;
    SpentBound(data, 0, cfg, 0);
    SpentIsSlots(data, 0, cfg, 0);
    BudgetIsProduct(|data|, Levels(cfg, 0));
  }

  /** `NewDecoderWithConfig`, then `Decode`. */
  method DecodeFresh(data: bytes, cfg: Config) returns (r: Result<Value<Slice>>, pos: nat, depth: int, ghost slots: nat)
    // the outcome is that of the parser; the value shows the input through its windows
    ensures match DecodeOf(data, 0, cfg, 0)
      case Ok(v, p) => r.Success? && Resolve(data, r.value) == v && pos == p
      case Fail(e, p) => r == Failure(e) && pos == p
    // read in tree order, the windows are increasing, disjoint and inside the bytes consumed
    ensures r.Success? ==> var ws := Windows(r.value);
      && (forall i :: 0 <= i < |ws| ==> ws[i].off + ws[i].len <= pos)
      && (forall i, j :: 0 <= i < j < |ws| ==> ws[i].off + ws[i].len <= ws[j].off)
    // the slots of the tree read, fewer than bytes consumed; and never more than the input once per level
    ensures r.Success? ==> slots == Slots(Parse(ValueMode, data, 0, cfg, 0).value) && (slots > 0 ==> slots < pos)
    ensures r.Failure? ==> slots <= (if cfg.maxDepth >= 0 then cfg.maxDepth + 1 else 1) * |data|
    ensures depth == if r == Failure(MaxDepthExceeded) then 1 else 0
  {
    var d := new Decoder(data, cfg);
    r := d.Decode();
    pos, depth, slots := d.pos, d.depth, d.slots;
    FreshBound(data, cfg);
    if r.Success? { OrderedPairwise(Windows(r.value), 0, pos); }
  }

  /**
   `Marshal` on the native types: whoever reads the bytes with `DecodeAny`, wherever they stand, gets the value back,
   exactly when its lengths fit 32 bits and the limits admit it.
   */
  method Marshal(t: Native) returns (result: bytes)
    requires Own(t)
    ensures forall data: bytes, pos: nat, cfg: Config, depth: int | At(data, pos, result) ::
      NativeRes(AnyMode, data, pos, cfg, depth) == Ok(Folded(t), pos + |result|) <==>
        Storable(t) && Admitted(t, cfg, depth)
  {
    hide At, Flatten;
    var e := new Encoder(256);
    ghost var w := Encode(e, t);
    result := e.buf[..e.len];
    assert result == Flatten(w);
    forall data: bytes, pos: nat, cfg: Config, depth: int | At(data, pos, result)
      ensures NativeRes(AnyMode, data, pos, cfg, depth) == Ok(Folded(t), pos + |result|) <==>
              Storable(t) && Admitted(t, cfg, depth)
    {
      RoundTripAny(t, w, data, pos, cfg, depth);
    }
  }

  /**
   `UnmarshalWithConfig` into a variable of type `any` that holds v: bytes behind the value are ignored,
   and a nil, like a failure, leaves the variable alone.
   */
  method UnmarshalAny(data: bytes, cfg: Config, v: Native) returns (r: Result<()>, v': Native)
    ensures match NativeRes(AnyMode, data, 0, cfg, 0)
      case Ok(t, _) => r == Success(()) && v' == if t == NNil then v else t
      case Fail(e, _) => r == Failure(e) && v' == v
  {
    v' := v;
    var d := new Decoder(data, cfg);
    var val :- DecodeAny(d);
    r := Success(());
    if val != NNil { v' := val; }
  }

  /** One of the buffer's primitive writes. */
  datatype Write = Byte(b: byte) | Bytes(s: bytes) | Word16(v16: nat) | Word32(v32: uint32) | Word64(v64: uint64)
  {
    predicate Valid() { Word16? ==> v16 < 0x1_0000 }

    function Written(): bytes {
      match this
      case Byte(b) => [b]
      case Bytes(s) => s
      case Word16(v) => BE(2, v)
      case Word32(v) => BE(4, v)
      case Word64(v) => BE(8, v)
    }
  }

  function Concat(writes: seq<Write>): bytes {
    if writes == [] then [] else Concat(writes[..|writes| - 1]) + writes[|writes| - 1].Written()
  }

  method Perform(e: Encoder, w: Write)
    requires e.Valid() && w.Valid()
    modifies e, e.buf
    ensures e.Appended(w.Written())
  {
    PowValues();
    match w
    case Byte(b) => e.WriteByte(b);
    case Bytes(s) => e.WriteBytes(s);
    case Word16(v) => e.WriteUint(2, v);
    case Word32(v) => e.WriteUint(4, v);
    case Word64(v) => e.WriteUint(8, v);
  }

  /** Any sequence of writes into a fresh encoder: nothing is lost, and the buffer and the copying stay linear. */
  method WriteRun(writes: seq<Write>, initial: nat) returns (result: bytes, capacity: nat, ghost copied: nat)
    requires forall i :: 0 <= i < |writes| ==> writes[i].Valid()
    ensures result == Concat(writes)
    ensures |result| <= capacity <= Max(initial, 2 * |result|)
    ensures copied <= capacity
  {
    var e := new Encoder(initial);
    for i := 0 to |writes|
      invariant fresh(e) && fresh(e.buf) && e.Valid() && e.initial == initial
      invariant e.Contents() == Concat(writes[..i]) && e.peak == e.len
    {
      Perform(e, writes[i]);
      assert writes[..i + 1][..i] == writes[..i];
    }
    assert writes[..|writes|] == writes;
    result, capacity, copied := e.buf[..e.len], e.buf.Length, e.copied;
  }
}
