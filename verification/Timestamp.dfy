/** The timestamp extension (timestamp.go): three layouts of an instant. */
module Timestamp {
  import opened Bytes
  import opened Bits
  import opened Format
  import opened Wire
  import opened Values
  import opened Grammar
  import opened Decoding
  import opened Canonical
  import opened Reference
  import opened EncoderModule

  const NANOS: int := 1_000_000_000
  const SECONDS32: int := 0x1_0000_0000    // seconds of the 32-bit layout
  const SECONDS34: int := 0x4_0000_0000    // seconds of the 64-bit layout: the low 34 bits
  const TIMESTAMP: byte := 0xff            // extension type -1

  /** An instant in UTC: seconds since the Unix epoch and nanoseconds within the second. */
  type nanos = n: int | 0 <= n < 1_000_000_000
  datatype Time = Time(sec: int64, nsec: nanos)

  /** `time.Unix` for nsec >= 0: whole seconds are carried over, wrapping at 64 bits. */
  function Unix(sec: int64, nsec: nat): Time {
    Time(Wrap64(sec + nsec / NANOS), nsec % NANOS)
  }

  lemma TwoTo34()
    ensures TwoTo(34) == SECONDS34
  {
    assert TwoTo(7) == 0x80;
    assert TwoTo(14) == 0x4000;
    assert TwoTo(21) == 0x20_0000;
    assert TwoTo(28) == 0x1000_0000;
  }

  /** `nsec<<34 | sec`: nothing is shifted out of the word, the parts never overlap, and both come back. */
  lemma Packing(nsec: nat, sec: nat)
    requires nsec < 0x4000_0000 && sec < SECONDS34
    ensures Or(Shl(nsec, 34), sec) == nsec * SECONDS34 + sec < 0x1_0000_0000_0000_0000
    ensures Shr(Or(Shl(nsec, 34), sec), 34) == nsec
    ensures And(Or(Shl(nsec, 34), sec), SECONDS34 - 1) == sec
  {
    hide And, Or, Shl, Shr;
    TwoTo34();
    OrApart(nsec, 34, sec);
    Apart(nsec, 34, sec);
    ShlTimes(nsec, 34);
  }

  /** Every 64-bit word is some nanoseconds of 30 bits above some seconds of 34. */
  lemma Unpacking(val: uint64)
    ensures And(val, SECONDS34 - 1) < SECONDS34 && Shr(val, 34) < 0x4000_0000
    ensures val == Shr(val, 34) * SECONDS34 + And(val, SECONDS34 - 1)
  {
    hide And, Shl, Shr;
    TwoTo34();
    LowBits(val, 34);
    ShlTimes(Shr(val, 34), 34);
  }

  /** The seconds and nanoseconds in a 64-bit word. */
  function Unpack(val: uint64): Time {
    Unpacking(val);
    Unix(And(val, SECONDS34 - 1), Shr(val, 34))
  }

  // ---- encoding ----

  /** The bytes of the instant itself: 4, 8 or 12 of them. */
  function StampBody(t: Time): (s: bytes)
    ensures |s| == 4 || |s| == 8 || |s| == 12
  {
    PowValues();
    if t.nsec == 0 && 0 <= t.sec < SECONDS32 then BE(4, t.sec)
    else if 0 <= t.sec < SECONDS34 then BE(8, Or(Shl(t.nsec, 34), t.sec))
    else BE(4, t.nsec) + BE(8, Unsigned(8, t.sec))
  }

  /** What stands before the type byte. */
  function StampHead(n: nat): bytes {
    if n == 4 then [FIXEXT4] else if n == 8 then [FIXEXT8] else [EXT8, 12]
  }

  /** The tree of an instant. */
  function Stamp(t: Time): Wire {
    Leaf(StampHead(|StampBody(t)|)[0], [TIMESTAMP] + StampBody(t))
  }

  lemma StampBytes(t: Time)
    ensures Legal(Stamp(t))
    ensures Flatten(Stamp(t)) == StampHead(|StampBody(t)|) + ([TIMESTAMP] + StampBody(t))
  {
    hide BE, UnBE, StampBody, Flatten;
    PowValues();
    Twelve();
    FlattenCountedAny(Stamp(t));
  }

  lemma Twelve()
    ensures BE(1, 12) == [12]
  {
    assert BE(0, 0) == [];
  }

  lemma StampHeads(t: Time)
    ensures StampHead(|StampBody(t)|)
         == if t.nsec == 0 && 0 <= t.sec < SECONDS32 then [FIXEXT4]
            else if 0 <= t.sec < SECONDS34 then [FIXEXT8]
            else [EXT8, 12]
  {
  }

  /** `EncodeTimestamp`. */
  method EncodeTimestamp(e: Encoder, t: Time)
    requires e.Valid()
    modifies e, e.buf
    ensures e.Appended(Flatten(Stamp(t)))
  {
    hide Stamp, StampHead, StampBody;
    ghost var before := e.Contents();
    StampBytes(t);
    StampHeads(t);
    if t.nsec == 0 && 0 <= t.sec < SECONDS32 {
      e.WriteByte(FIXEXT4);
      WriteInstant(e, t);
    } else if 0 <= t.sec < SECONDS34 {
      e.WriteByte(FIXEXT8);
      WriteInstant(e, t);
    } else {
      e.WriteByte(EXT8);
      e.WriteByte(12);
      assert e.Contents() == before + [EXT8, 12];
      WriteInstant(e, t);
    }
    Glue(before, StampHead(|StampBody(t)|), [TIMESTAMP] + StampBody(t));
  }

  /** The rest of each branch of `EncodeTimestamp`, from the type byte on. */
  method WriteInstant(e: Encoder, t: Time)
    requires e.Valid()
    modifies e, e.buf
    ensures e.Appended([TIMESTAMP] + StampBody(t))
  {
    hide And, Or, Shl, Shr, BE;
    ghost var before := e.Contents();
    PowValues();
    e.WriteByte(TIMESTAMP);
    if t.nsec == 0 && 0 <= t.sec < SECONDS32 {
      e.WriteUint(4, t.sec);
    } else if 0 <= t.sec < SECONDS34 {
      Packing(t.nsec, t.sec);
      var val := Or(Shl(t.nsec, 34), t.sec);
      e.WriteUint(8, val);
    } else {
      e.WriteUint(4, t.nsec);
      e.WriteUint(8, Unsigned(8, t.sec));
      Glue(before + [TIMESTAMP], BE(4, t.nsec), BE(8, Unsigned(8, t.sec)));
    }
    Glue(before, [TIMESTAMP], StampBody(t));
  }

  // ---- decoding ----

  /** The instant in a payload of 4, 8 or 12 bytes. */
  function Instant(s: bytes): Time
    requires |s| == 4 || |s| == 8 || |s| == 12
  {
    PowValues();
    if |s| == 4 then Unix(UnBE(s), 0)
    else if |s| == 8 then Unpack(UnBE(s))
    else Unix(Signed(8, UnBE(s[4..])), UnBE(s[..4]))
  }

  /** `ExtToTimestamp`. */
  function ExtToTimestamp(typ: int8, data: bytes): Result<Time> {
    if typ == -1 && (|data| == 4 || |data| == 8 || |data| == 12) then Success(Instant(data)) else Failure(TypeMismatch)
  }

  /** The layouts `DecodeTimestamp` knows: the length of the instant and where its type byte stands. */
  function Layout(data: bytes, pos: nat): (r: Res<nat>)
    requires pos < |data|
    ensures pos < r.pos <= |data|
    ensures r.Ok? ==> r.value == 4 || r.value == 8 || r.value == 12
  {
    if data[pos] == FIXEXT4 then Ok(4, pos + 1)
    else if data[pos] == FIXEXT8 then Ok(8, pos + 1)
    else if data[pos] != EXT8 then Fail(TypeMismatch, pos + 1)
    else if pos + 1 == |data| then Fail(UnexpectedEOF, pos + 1)
    else if data[pos + 1] != 12 then Fail(TypeMismatch, pos + 2)
    else Ok(12, pos + 2)
  }

  /** What `DecodeTimestamp` makes of the input; the 12-byte layout is read in two parts. */
  function TimestampAt(data: bytes, pos: nat): (r: Res<Time>)
    requires pos <= |data|
  {
    if pos == |data| then Fail(UnexpectedEOF, pos)
    else match Layout(data, pos)
      case Fail(e, p) => Fail(e, p)
      case Ok(n, p) =>
        if p == |data| then Fail(UnexpectedEOF, p)
        else if data[p] != TIMESTAMP then Fail(TypeMismatch, p + 1)
        else if p + 1 + n <= |data| then Ok(Instant(data[p + 1..p + 1 + n]), p + 1 + n)
        else Fail(UnexpectedEOF, if n == 12 && p + 5 <= |data| then p + 5 else p + 1)
  }

  /** `decodeTimestampDataLen`. */
  method DecodeTimestampDataLen(d: Decoder, format: byte) returns (r: Result<nat>)
    requires d.Valid() && d.pos > 0 && d.data[d.pos - 1] == format
    modifies d`pos
    ensures d.Valid()
    ensures match Layout(d.data, old(d.pos) - 1)
      case Ok(n, p) => r == Success(n) && d.pos == p
      case Fail(e, p) => r == Failure(e) && d.pos == p
  {
    if format == FIXEXT4 { return Success(4); }
    if format == FIXEXT8 { return Success(8); }
    if format != EXT8 { return Failure(TypeMismatch); }
    var n :- d.ReadByte();
    if n != 12 { return Failure(TypeMismatch); }
    return Success(12);
  }

  /** `decodeTimestampValue`. */
  method DecodeTimestampValue(d: Decoder, n: int) returns (r: Result<Time>)
    requires d.Valid()
    modifies d`pos
    ensures d.Valid()
    ensures n == 4 || n == 8 || n == 12 ==>
      if old(d.pos) + n <= |d.data| then r == Success(Instant(d.data[old(d.pos)..old(d.pos) + n])) &&
        d.pos == old(d.pos) + n
      else r == Failure(UnexpectedEOF) && d.pos == old(d.pos) + if n == 12 && old(d.pos) + 4 <= |d.data| then 4 else 0
    ensures n != 4 && n != 8 && n != 12 ==> r == Failure(TypeMismatch) && d.pos == old(d.pos)
  {
    PowValues();
    if n == 4 {
      var sec :- d.ReadUint(4);
      return Success(Unix(sec, 0));
    } else if n == 8 {
      var val :- d.ReadUint(8);
      Unpacking(val);
      return Success(Unix(And(val, SECONDS34 - 1), Shr(val, 34)));
    } else if n == 12 {
      ghost var s := if d.pos + 12 <= |d.data| then d.data[d.pos..d.pos + 12] else [];
      var nsec :- d.ReadUint(4);
      var sec :- d.ReadUint(8);
      assert s[..4] == d.data[old(d.pos)..old(d.pos) + 4] && s[4..] == d.data[old(d.pos) + 4..old(d.pos) + 12];
      return Success(Unix(Signed(8, sec), nsec));
    }
    return Failure(TypeMismatch);
  }

  /** `DecodeTimestamp`. */
  method DecodeTimestamp(d: Decoder) returns (r: Result<Time>)
    requires d.Valid()
    modifies d`pos
    ensures d.Valid()
    ensures match TimestampAt(d.data, old(d.pos))
      case Ok(t, p) => r == Success(t) && d.pos == p
      case Fail(e, p) => r == Failure(e) && d.pos == p
  {
    var format :- d.ReadByte();
    var n :- DecodeTimestampDataLen(d, format);
    var extType :- d.ReadByte();
    if extType != TIMESTAMP { return Failure(TypeMismatch); }
    r := DecodeTimestampValue(d, n);
  }

  // ---- the instant in the bytes, in plain numbers ----

  /** `time.Unix` keeps the point in time: nanoseconds carried into the seconds, which wrap only past 64 bits. */
  lemma {:induction false} UnixMeans(sec: int64, nsec: nat)
    ensures var t := Unix(sec, nsec);
      && (sec + nsec / NANOS - t.sec) % 0x1_0000_0000_0000_0000 == 0 && nsec == nsec / NANOS * NANOS + t.nsec
      && (sec + nsec / NANOS < 0x8000_0000_0000_0000 ==> t.sec * NANOS + t.nsec == sec * NANOS + nsec)
  {
    Wrap64Means(sec + nsec / NANOS);
  }

  /** The three layouts: seconds; nanoseconds above 34 bits of seconds; nanoseconds, then signed seconds. */
  lemma InstantMeans(s: bytes)
    requires |s| == 4 || |s| == 8 || |s| == 12
    ensures |s| == 4 ==> Number(s) < SECONDS32 && Instant(s) == Unix(Number(s), 0)
    ensures |s| == 8 ==> exists nsec: nat, sec: nat ::
      nsec < 0x4000_0000 && sec < SECONDS34 && Number(s) == nsec * SECONDS34 + sec && Instant(s) == Unix(sec, nsec)
    ensures |s| == 12 ==>
      && -0x8000_0000_0000_0000 <= TwosComplement(s[4..]) < 0x8000_0000_0000_0000
      && Instant(s) == Unix(TwosComplement(s[4..]), Number(s[..4]))
  {
    hide And, Shr, Unix, UnBE, Number, Signed, TwosComplement;
    PowValues();
    NumberIsUnBE(s);
    if |s| == 8 {
      Unpacking(UnBE(s));
      var nsec, sec := Shr(UnBE(s), 34), And(UnBE(s), SECONDS34 - 1);
      assert Number(s) == nsec * SECONDS34 + sec && Instant(s) == Unix(sec, nsec);
    } else if |s| == 12 {
      NumberIsUnBE(s[..4]);
      TwosComplementIsSigned(s[4..]);
    }
  }

  /** A failing `DecodeTimestamp` reports the end of the input exactly when more input could make it succeed. */
  lemma EndOfInput(data: bytes, pos: nat)
    requires pos <= |data| && TimestampAt(data, pos).Fail?
    ensures TimestampAt(data, pos).err == UnexpectedEOF || TimestampAt(data, pos).err == TypeMismatch
    ensures TimestampAt(data, pos).err == UnexpectedEOF <==>
            exists more: bytes :: TimestampAt(data + more, pos).Ok?
  {
    hide Instant;
    var short := TimestampAt(data, pos);
    if short.err == UnexpectedEOF {
      var more := Completion(data, pos);
      assert TimestampAt(data + more, pos).Ok?;
    } else {
      forall more: bytes ensures TimestampAt(data + more, pos).Fail? {
        assert forall i :: 0 <= i < |data| ==> (data + more)[i] == data[i];
      }
    }
  }

  /** Every failure and its place, in plain numbers; what is left is an instant of 4, 8 or 12 bytes. */
  lemma {:induction false} Outcome(data: bytes, pos: nat)
    requires pos < |data|
    ensures var f, r := data[pos], TimestampAt(data, pos);
      if f != 0xd6 && f != 0xd7 && f != 0xc7 then r == Fail(TypeMismatch, pos + 1)
      else if f == 0xc7 && pos + 1 == |data| then r == Fail(UnexpectedEOF, pos + 1)
      else if f == 0xc7 && data[pos + 1] != 12 then r == Fail(TypeMismatch, pos + 2)
      else
        var q, n := if f == 0xc7 then pos + 2 else pos + 1, if f == 0xd6 then 4 else if f == 0xd7 then 8 else 12;
        if q == |data| then r == Fail(UnexpectedEOF, q)
        else if data[q] != 0xff then r == Fail(TypeMismatch, q + 1)
        else if q + 1 + n <= |data| then r == Ok(Instant(data[q + 1..q + 1 + n]), q + 1 + n)
        else r == Fail(UnexpectedEOF, if n == 12 && q + 5 <= |data| then q + 5 else q + 1)
  {
    hide Instant;
  }

  /** Bytes that complete a timestamp cut short. */
  function Completion(data: bytes, pos: nat): bytes
    requires pos <= |data|
  {
    if pos == |data| then [FIXEXT4, TIMESTAMP, 0, 0, 0, 0]
    else if data[pos] == EXT8 && pos + 1 == |data| then [12, TIMESTAMP] + Zeroes(12)
    else
      var p := if data[pos] == EXT8 then pos + 2 else pos + 1;
      if p == |data| then [TIMESTAMP] + Zeroes(12) else Zeroes(12)
  }

  function Zeroes(n: nat): (s: bytes)
    ensures |s| == n
  {
    seq(n, _ => 0)
  }

  // ---- round trip, shortest layout, agreement ----

  /** The bytes of an instant are that instant again, in each of the three layouts. */
  lemma InstantOfStamp(t: Time)
    ensures Instant(StampBody(t)) == t
  {
    hide And, Or, Shl, Shr, BE, UnBE;
    PowValues();
    var s := StampBody(t);
    if t.nsec == 0 && 0 <= t.sec < SECONDS32 {
      UnBEofBE(4, t.sec);
    } else if 0 <= t.sec < SECONDS34 {
      Packing(t.nsec, t.sec);
      UnBEofBE(8, Or(Shl(t.nsec, 34), t.sec));
    } else {
      assert s[..4] == BE(4, t.nsec) && s[4..] == BE(8, Unsigned(8, t.sec));
      UnBEofBE(4, t.nsec);
      UnBEofBE(8, Unsigned(8, t.sec));
      SignedOfUnsigned(8, t.sec);
    }
  }

  /** For every instant, encoding then decoding is the identity, whatever follows. */
  lemma TimestampRoundTrip(t: Time, data: bytes, pos: nat)
    requires At(data, pos, Flatten(Stamp(t)))
    ensures TimestampAt(data, pos) == Ok(t, pos + |Flatten(Stamp(t))|)
  {
    hide Instant, Legal, Stamp, Flatten, StampBody, At;
    var body := StampBody(t);
    var head := StampHead(|body|);
    StampBytes(t);
    InstantOfStamp(t);
    AtConcat(data, pos, head, [TIMESTAMP] + body);
    AtConcat(data, pos + |head|, [TIMESTAMP], body);
    AtSlice(data, pos, head);
    AtSlice(data, pos + |head| + 1, body);
    assert head == data[pos..pos + |head|];
  }

  /** The bytes at pos hold a 64-bit layout whose nanoseconds carry its seconds past the 34 bits. */
  predicate CarriesOut(data: bytes, pos: nat)
    requires pos < |data|
  {
    && data[pos] == FIXEXT8 && pos + 10 <= |data|
    && var val := UnBE(data[pos + 2..pos + 10]);
       Shr(val, 34) >= NANOS && And(val, SECONDS34 - 1) == SECONDS34 - 1
  }

  /**
   The encoder never takes more bytes than the instant was read from - but for the one carry that leaves the 64-bit
   layout.
   */
  lemma ShortestLayout(data: bytes, pos: nat)
    requires pos <= |data| && TimestampAt(data, pos).Ok?
    ensures |Flatten(Stamp(TimestampAt(data, pos).value))| <= TimestampAt(data, pos).pos - pos <==>
            !CarriesOut(data, pos)
  {
    hide And, Shr, BE, UnBE, Flatten;
    var r := TimestampAt(data, pos);
    StampBytes(r.value);
    PowValues();
    if data[pos] == FIXEXT8 {
      Unpacking(UnBE(data[pos + 2..pos + 10]));
    }
  }

  /** The exception exists: the greatest word of the 64-bit layout carries out. */
  lemma OneCarriesOut()
    ensures exists data: bytes :: data != [] && TimestampAt(data, 0).Ok? && CarriesOut(data, 0)
  {
    hide And, Or, Shl, Shr, BE, UnBE;
    var word := 0xFFFF_FFFF_FFFF_FFFF;
    PowValues();
    Packing(0x3FFF_FFFF, SECONDS34 - 1);
    UnBEofBE(8, word);
    var data: bytes := [FIXEXT8, TIMESTAMP] + BE(8, word);
    assert data[2..10] == BE(8, word);
    assert CarriesOut(data, 0);
  }

  /** The type byte read as int8. */
  function TypeOf(b: byte): (t: int8)
    ensures t == -1 <==> b == TIMESTAMP
  {
    PowValues();
    Signed(1, b)
  }

  /** Every ext value, as the general decoder reads it. */
  lemma {:induction false} ExtRead(data: bytes, pos: nat, cfg: Config, depth: int)
    requires pos < |data| && ShapeOf(data[pos]).Counted? && ShapeOf(data[pos]).kind.Ext?
    ensures var field := ShapeOf(data[pos]).field;
      var p := pos + 1 + Width(field);
      DecodeOf(data, pos, cfg, depth)
        == if p > |data| then Fail(UnexpectedEOF, pos + 1)
           else
             var n := CountFrom(field, data[pos + 1..p]);
             if n > cfg.maxExt then Fail(TooLong(Kind.Ext), p)
             else if p + n > |data| then Fail(UnexpectedEOF, p)
             else if p + 1 + n > |data| then Fail(UnexpectedEOF, if p == |data| then p else p + 1)
             else Ok(Value.Ext(TypeOf(data[p]), data[p + 1..p + 1 + n]), p + 1 + n)
  {
    hide Flatten, Body, Fits, ParseAll, UnBE;
    var field := ShapeOf(data[pos]).field;
    var p := pos + 1 + Width(field);
    if p <= |data| {
      var n := CountFrom(field, data[pos + 1..p]);
      CountKnown(ValueMode, data, pos + 1, data[pos], cfg, depth);
      SoundBody(ValueMode, data, pos + 1, data[pos], cfg, depth);
      if p + 1 + n <= |data| { assert data[p..p + 1 + n][1..] == data[p + 1..p + 1 + n]; }
    } else {
      assert ParseBody(ValueMode, data, pos + 1, data[pos], cfg, depth) == Fail(UnexpectedEOF, pos + 1);
    }
  }

  /**
   Whenever `DecodeTimestamp` succeeds, `Decode` followed by `ExtToTimestamp` gives the same instant and stops
   at the same place, exactly when the extension limit admits the 4, 8 or 12 bytes, which `DecodeTimestamp` never
   checks.
   */
  lemma TimestampAgrees(data: bytes, pos: nat, cfg: Config, depth: int)
    requires pos <= |data| && TimestampAt(data, pos).Ok?
    ensures DecodeOf(data, pos, cfg, depth).Ok? <==> Layout(data, pos).value <= cfg.maxExt
    ensures Layout(data, pos).value <= cfg.maxExt ==>
      var v := DecodeOf(data, pos, cfg, depth);
      && v.value.Ext? && v.pos == TimestampAt(data, pos).pos
      && ExtToTimestamp(v.value.typ, v.value.data) == Success(TimestampAt(data, pos).value)
  {
    hide Instant, BE, UnBE;
    ExtRead(data, pos, cfg, depth);
    OneByte(data, pos + 1);
  }

  lemma OneByte(data: bytes, pos: nat)
    requires pos < |data|
    ensures UnBE(data[pos..pos + 1]) == data[pos]
  {
    assert data[pos..pos + 1][..0] == [] && UnBE([]) == 0;
  }

  /**
   And back: of the ext values that are instants, `DecodeTimestamp` accepts exactly those in a layout the encoder
   writes.
   */
  lemma AgreesBack(data: bytes, pos: nat, cfg: Config, depth: int)
    requires pos <= |data| && DecodeOf(data, pos, cfg, depth).Ok? && DecodeOf(data, pos, cfg, depth).value.Ext?
    requires var v := DecodeOf(data, pos, cfg, depth).value; ExtToTimestamp(v.typ, v.data).Success?
    ensures TimestampAt(data, pos).Ok? <==> Layout(data, pos).Ok?
  {
    hide Flatten, Body, Fits, Instant, ParseBody;
    SoundBody(ValueMode, data, pos + 1, data[pos], cfg, depth);
    ExtRead(data, pos, cfg, depth);
    if pos + 1 < |data| { OneByte(data, pos + 1); }
  }
}
