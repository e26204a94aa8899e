/**
 The concrete syntax of MessagePack as trees, and the specification of the parsers.

 One specification, `Parse`, covers the three decoders of the repository that read arbitrary
 values; a `Mode` names the decoder and selects the few branches in which they differ.
 */
module Wire {
  import opened Bytes
  import opened Format

  datatype Error =
    | UnexpectedEOF
    | InvalidFormat
    | TooLong(kind: Kind)   // ErrStringTooLong, ErrBinaryTooLong, ErrArrayTooLong, ErrMapTooLong, ErrExtTooLong
    | MaxDepthExceeded
    | TypeMismatch

  datatype Config = Config(maxStr: int, maxBin: int, maxArr: int, maxMap: int, maxExt: int, maxDepth: int)
  {
    function Limit(kind: Kind): int {
      match kind
      case Str => maxStr
      case Bin => maxBin
      case Arr => maxArr
      case Map => maxMap
      case Ext => maxExt
    }
  }

  /** ValueMode is `Decode`, AnyMode is `DecodeAny`, TypedMode is the copy in typed_decode.go. */
  datatype Mode = ValueMode | AnyMode | TypedMode

  /** The outcome of a parser: what it produced or why it failed, and where the cursor then stands. */
  datatype Res<+T> = Ok(value: T, pos: nat) | Fail(err: Error, pos: nat)

  /**
   A value as written. A leaf keeps its payload bytes (for an ext: the type byte, then the data);
   a node keeps its children, the keys and values of a map alternating.
   */
  datatype Wire =
    | Leaf(format: byte, payload: bytes)
    | Node(format: byte, kids: seq<Wire>)
  {
    function Shape(): Shape { ShapeOf(format) }

    predicate IsNode() { Shape().Counted? && (Shape().kind.Arr? || Shape().kind.Map?) }
  }

  /** Payload units announced by count n: bytes of a leaf, children of a node. */
  function Units(kind: Kind, n: nat): nat {
    match kind
    case Str => n
    case Bin => n
    case Ext => n + 1
    case Arr => n
    case Map => 2 * n
  }

  /** The least number of bytes the eager length checks ask for after the count. */
  function Needed(kind: Kind, n: nat): nat {
    if kind.Map? then 2 * n else n
  }

  /** The count a tree has to announce. */
  function Count(w: Wire): nat {
    match w
    case Leaf(f, p) => if ShapeOf(f).Counted? && ShapeOf(f).kind.Ext? && |p| > 0 then |p| - 1 else |p|
    case Node(f, ks) => if ShapeOf(f).Counted? && ShapeOf(f).kind.Map? then |ks| / 2 else |ks|
  }

  function Flatten(w: Wire): (s: bytes)
    ensures |s| > 0
    decreases w, 1
  {
    [w.format] + Body(w)
  }

  /** What follows the format byte. */
  function Body(w: Wire): bytes
    decreases w, 0, 1
  {
    CountPart(w) + Payload(w)
  }

  function CountPart(w: Wire): bytes {
    if w.Shape().Counted? then CountBytes(w.Shape().field, Count(w)) else []
  }

  /** What follows the count. */
  function Payload(w: Wire): bytes
    decreases w, 0, 0
  {
    match w case Leaf(_, p) => p case Node(_, ks) => FlattenAll(ks)
  }

  function FlattenAll(ws: seq<Wire>): (s: bytes)
    ensures |s| >= |ws|
    decreases ws, 0
  {
    if ws == [] then [] else Flatten(ws[0]) + FlattenAll(ws[1..])
  }

  /** The trees the "Formats" table derives. */
  ghost predicate Legal(w: Wire)
    decreases w, 1
  {
    match w.Shape()
    case Unused => false
    case Scalar(k) => w.Leaf? && |w.payload| == k
    case Counted(kind, field) =>
      && Holds(field, Count(w))
      && (if w.IsNode() then w.Node? && |w.kids| == Units(kind, Count(w)) && LegalAll(w.kids)
          else w.Leaf? && |w.payload| == Units(kind, Count(w)))
  }

  ghost predicate LegalAll(ws: seq<Wire>)
    decreases ws, 0
  {
    ws == [] || (Legal(ws[0]) && LegalAll(ws[1..]))
  }

  function Deeper(m: Mode, depth: int): int {
    if m.TypedMode? then depth else depth + 1
  }

  /** In a keyed sequence the item at hand is a key when an even number of items is left. */
  predicate AtKey(keyed: bool, left: nat) {
    keyed && left % 2 == 0
  }

  /** The limits a decoder imposes on a tree at container depth `depth`. */
  ghost predicate Fits(m: Mode, w: Wire, cfg: Config, depth: int)
    decreases w, 1
  {
    w.Shape().Counted? ==>
      && Count(w) <= cfg.Limit(w.Shape().kind)
      && (w.Shape().kind.Ext? ==> m.ValueMode?)
      && (w.Node? ==>
           && (m.TypedMode? || depth + 1 <= cfg.maxDepth)
           && FitsAll(m, w.kids, w.Shape().kind.Map?, cfg, Deeper(m, depth)))
  }

  ghost predicate FitsAll(m: Mode, ws: seq<Wire>, keyed: bool, cfg: Config, depth: int)
    decreases ws, 0
  {
    ws == [] ||
    (&& Fits(m, ws[0], cfg, depth)
     && (AtKey(keyed, |ws|) && !m.ValueMode? ==> IsStr(ws[0].format))
     && FitsAll(m, ws[1..], keyed, cfg, depth))
  }

  // ---- the parsers ----

  function Parse(m: Mode, data: bytes, pos: nat, cfg: Config, depth: int): (r: Res<Wire>)
    requires pos <= |data|
    ensures pos <= r.pos <= |data|
    ensures r.Ok? ==> pos < r.pos
    decreases |data| - pos, 0
  {
    if pos == |data| then Fail(UnexpectedEOF, pos)
    else ParseBody(m, data, pos + 1, data[pos], cfg, depth)
  }

  /** `decodeValue`, `decodeAnyValue`: the format byte has been read, the cursor is behind it. */
  function ParseBody(m: Mode, data: bytes, pos: nat, format: byte, cfg: Config, depth: int): (r: Res<Wire>)
    requires pos <= |data|
    ensures pos <= r.pos <= |data|
    decreases |data| - pos, 4
  {
    match ShapeOf(format)
    case Unused => Fail(InvalidFormat, pos)
    case Scalar(k) =>
      if pos + k <= |data| then Ok(Leaf(format, data[pos..pos + k]), pos + k) else Fail(UnexpectedEOF, pos)
    case Counted(kind, field) =>
      if kind.Ext? && !m.ValueMode? then Fail(InvalidFormat, pos)
      else if pos + Width(field) > |data| then Fail(UnexpectedEOF, pos)
      else
        var p := pos + Width(field);
        ParseCounted(m, data, p, format, kind, CountFrom(field, data[pos..p]), cfg, depth)
  }

  /** `decodeString`, `decodeBinary`, `decodeArray`, `decodeMap`, `decodeExt`: the count is known. */
  function ParseCounted(m: Mode, data: bytes, pos: nat, format: byte, kind: Kind, n: nat, cfg: Config, depth: int)
    : (r: Res<Wire>)
    requires pos <= |data|
    ensures pos <= r.pos <= |data|
    decreases |data| - pos, 3
  {
    if n > cfg.Limit(kind) then Fail(TooLong(kind), pos)
    else if pos + Needed(kind, n) > |data| then Fail(UnexpectedEOF, pos)
    else match kind {
      case Str => Ok(Leaf(format, data[pos..pos + n]), pos + n)
      case Bin => Ok(Leaf(format, data[pos..pos + n]), pos + n)
      case Ext =>
        if pos == |data| then Fail(UnexpectedEOF, pos)
        else if pos + 1 + n > |data| then Fail(UnexpectedEOF, pos + 1)
        else Ok(Leaf(format, data[pos..pos + 1 + n]), pos + 1 + n)
      case _ =>
        if !m.TypedMode? && depth + 1 > cfg.maxDepth then Fail(MaxDepthExceeded, pos)
        else match ParseAll(m, data, pos, Units(kind, n), kind.Map?, cfg, Deeper(m, depth)) {
          case Ok(ws, p) => Ok(Node(format, ws), p)
          case Fail(e, p) => Fail(e, p)
        }
    }
  }

  /** n consecutive items. */
  function ParseAll(m: Mode, data: bytes, pos: nat, n: nat, keyed: bool, cfg: Config, depth: int): (r: Res<seq<Wire>>)
    requires pos <= |data|
    ensures pos <= r.pos <= |data|
    decreases |data| - pos, 2, n
  {
    if n == 0 then Ok([], pos)
    else match ParseItem(m, data, pos, AtKey(keyed, n), cfg, depth) {
      case Fail(e, p) => Fail(e, p)
      case Ok(w, p) =>
        match ParseAll(m, data, p, n - 1, keyed, cfg, depth) {
          case Fail(e, q) => Fail(e, q)
          case Ok(ws, q) => Ok([w] + ws, q)
        }
    }
  }

  /** An item of a container. `Decode` takes any value as a key, the other decoders only strings. */
  function ParseItem(m: Mode, data: bytes, pos: nat, isKey: bool, cfg: Config, depth: int): (r: Res<Wire>)
    requires pos <= |data|
    ensures pos <= r.pos <= |data|
    ensures r.Ok? ==> pos < r.pos
    decreases |data| - pos, 1
  {
    if isKey && !m.ValueMode? && pos < |data| && !IsStr(data[pos])
    then Fail(if m.AnyMode? then InvalidFormat else TypeMismatch, pos + 1)
    else Parse(m, data, pos, cfg, depth)
  }
}
