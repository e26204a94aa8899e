/** How many array and map slots a run of `Decode` makes: exactly what the parser goes through, and never too many. */
module Allocation {
  import opened Bytes
  import opened Format
  import opened Wire
  import opened Grammar

  // ---- slots made, failing runs included ----

  /** Slots made by one `Decode`. */
  ghost function Spent(data: bytes, pos: nat, cfg: Config, depth: int): nat
    requires pos <= |data|
    decreases |data| - pos, 0
  {
    if pos == |data| then 0 else SpentBody(data, pos + 1, data[pos], cfg, depth)
  }

  ghost function SpentBody(data: bytes, pos: nat, format: byte, cfg: Config, depth: int): nat
    requires pos <= |data|
    decreases |data| - pos, 4
  {
    if !ShapeOf(format).Counted? || pos + Width(ShapeOf(format).field) > |data| then 0
    else
      var p := pos + Width(ShapeOf(format).field);
      SpentCounted(data, p, ShapeOf(format).kind, CountFrom(ShapeOf(format).field, data[pos..p]), cfg, depth)
  }

  /** One slot for every item or pair asked for, once length and depth are checked and before any item is read. */
  ghost function SpentCounted(data: bytes, pos: nat, kind: Kind, n: nat, cfg: Config, depth: int): nat
    requires pos <= |data|
    decreases |data| - pos, 3
  {
    if !(kind.Arr? || kind.Map?) || n > cfg.Limit(kind) then 0
    else if pos + Needed(kind, n) > |data| || depth + 1 > cfg.maxDepth then 0
    else n + SpentAll(data, pos, Units(kind, n), cfg, depth + 1)
  }

  /** n items, up to the first that fails. */
  ghost function SpentAll(data: bytes, pos: nat, n: nat, cfg: Config, depth: int): nat
    requires pos <= |data|
    decreases |data| - pos, 2, n
  {
    if n == 0 then 0
    else
      var first := Parse(ValueMode, data, pos, cfg, depth);
      Spent(data, pos, cfg, depth) + if first.Ok? then SpentAll(data, first.pos, n - 1, cfg, depth) else 0
  }

  lemma SpentOne(data: bytes, pos: nat, n: nat, cfg: Config, depth: int)
    requires pos <= |data| && n > 0
    ensures SpentAll(data, pos, n, cfg, depth)
         == Spent(data, pos, cfg, depth)
            + match Parse(ValueMode, data, pos, cfg, depth) {
                case Fail(_, _) => 0
                case Ok(_, p) => SpentAll(data, p, n - 1, cfg, depth)
              }
  {
  }

  lemma SpentTwo(data: bytes, pos: nat, n: nat, cfg: Config, depth: int)
    requires pos <= |data| && n > 1
    ensures SpentAll(data, pos, n, cfg, depth)
         == SpentAll(data, pos, 2, cfg, depth)
            + match Parse(ValueMode, data, pos, cfg, depth) {
                case Fail(_, _) => 0
                case Ok(_, q) =>
                  match Parse(ValueMode, data, q, cfg, depth) {
                    case Fail(_, _) => 0
                    case Ok(_, p) => SpentAll(data, p, n - 2, cfg, depth)
                  }
              }
  {
    hide Parse, Spent;
    var first := Parse(ValueMode, data, pos, cfg, depth);
    SpentOne(data, pos, n, cfg, depth);
    SpentOne(data, pos, 2, cfg, depth);
    if first.Ok? {
      SpentOne(data, first.pos, n - 1, cfg, depth);
      SpentOne(data, first.pos, 1, cfg, depth);
    }
  }

  // ---- exactly the tree's own ----

  /** Items of its arrays and pairs of its maps, at every level. */
  function Slots(w: Wire): nat
    decreases w, 1
  {
    match w
    case Leaf(_, _) => 0
    case Node(f, ks) => (if 0x80 <= f <= 0x8f || f >= 0xde then |ks| / 2 else |ks|) + SlotsAll(ks)
  }

  function SlotsAll(ws: seq<Wire>): nat
    decreases ws, 0
  {
    if ws == [] then 0 else Slots(ws[0]) + SlotsAll(ws[1..])
  }

  lemma {:induction false} SpentIsSlots(data: bytes, pos: nat, cfg: Config, depth: int)
    requires pos <= |data|
    ensures Parse(ValueMode, data, pos, cfg, depth).Ok? ==>
      Spent(data, pos, cfg, depth) == Slots(Parse(ValueMode, data, pos, cfg, depth).value)
    decreases |data| - pos, 0
  {
    if pos < |data| && ShapeOf(data[pos]).Counted? {
      var field, kind := ShapeOf(data[pos]).field, ShapeOf(data[pos]).kind;
      var p := pos + 1 + Width(field);
      if p <= |data| {
        CountedIsSlots(data, p, data[pos], kind, CountFrom(field, data[pos + 1..p]), cfg, depth);
      }
    }
  }

  lemma {:induction false} CountedIsSlots(data: bytes, pos: nat, format: byte, kind: Kind, n: nat, cfg: Config,
                                          depth: int)
    requires pos <= |data| && ShapeOf(format).Counted? && ShapeOf(format).kind == kind
    ensures ParseCounted(ValueMode, data, pos, format, kind, n, cfg, depth).Ok? ==>
      SpentCounted(data, pos, kind, n, cfg, depth)
        == Slots(ParseCounted(ValueMode, data, pos, format, kind, n, cfg, depth).value)
    decreases |data| - pos, 3
  {
    if kind.Arr? || kind.Map? {
      SpentAllIsSlots(data, pos, Units(kind, n), kind.Map?, cfg, depth + 1);
      SoundAll(ValueMode, data, pos, Units(kind, n), kind.Map?, cfg, depth + 1);
    }
  }

  lemma {:induction false} SpentAllIsSlots(data: bytes, pos: nat, n: nat, keyed: bool, cfg: Config, depth: int)
    requires pos <= |data|
    ensures ParseAll(ValueMode, data, pos, n, keyed, cfg, depth).Ok? ==>
      SpentAll(data, pos, n, cfg, depth) == SlotsAll(ParseAll(ValueMode, data, pos, n, keyed, cfg, depth).value)
    decreases |data| - pos, 2, n
  {
    if n > 0 {
      SpentIsSlots(data, pos, cfg, depth);
      ItemRead1(data, pos, n, keyed, cfg, depth);
      var first := Parse(ValueMode, data, pos, cfg, depth);
      if first.Ok? {
        SpentAllIsSlots(data, first.pos, n - 1, keyed, cfg, depth);
        var rest := ParseAll(ValueMode, data, first.pos, n - 1, keyed, cfg, depth);
        if rest.Ok? { assert ([first.value] + rest.value)[1..] == rest.value; }
      }
    }
  }

  /** To `Decode` every item, key or not, is a value. */
  lemma ItemRead1(data: bytes, pos: nat, n: nat, keyed: bool, cfg: Config, depth: int)
    requires pos <= |data| && n > 0
    ensures ParseAll(ValueMode, data, pos, n, keyed, cfg, depth)
         == match Parse(ValueMode, data, pos, cfg, depth) {
              case Fail(e, p) => Fail(e, p)
              case Ok(w, p) =>
                match ParseAll(ValueMode, data, p, n - 1, keyed, cfg, depth) {
                  case Fail(e, q) => Fail(e, q)
                  case Ok(ws, q) => Ok([w] + ws, q)
                }
            }
  {
  }

  // ---- never too many ----

  /** Container levels the depth limit still admits, plus one. */
  function Levels(cfg: Config, depth: int): (k: nat)
    ensures k >= 1
  {
    if cfg.maxDepth > depth then cfg.maxDepth - depth + 1 else 1
  }

  /** `bytes` once per level; repeated addition keeps the solver out of nonlinear arithmetic. */
  function Budget(bytes: nat, levels: nat): nat {
    if levels == 0 then 0 else bytes + Budget(bytes, levels - 1)
  }

  lemma {:induction false} BudgetIsProduct(bytes: nat, levels: nat)
    ensures Budget(bytes, levels) == bytes * levels
  {
    if levels > 0 {
      BudgetIsProduct(bytes, levels - 1);
      assert bytes * levels == bytes * (levels - 1) + bytes;
    }
  }

  lemma {:induction false} BudgetMonotone(a: nat, b: nat, levels: nat)
    requires a <= b
    ensures Budget(a, levels) <= Budget(b, levels)
  {
    if levels > 0 { BudgetMonotone(a, b, levels - 1); }
  }

  lemma BudgetSplit(done: nat, rest: nat, levels: nat)
    requires levels >= 1
    ensures done + Budget(rest, levels) <= Budget(done + rest, levels)
  {
    BudgetMonotone(rest, done + rest, levels - 1);
  }

  /** Fewer slots than bytes where the run succeeds, at most the bytes at hand once per level where it fails. */
  ghost predicate Thrifty(slots: nat, ok: bool, consumed: int, remaining: nat, levels: nat) {
    if ok then slots == 0 || slots < consumed else slots <= Budget(remaining, levels)
  }

  /** The allocation bound, for a successful and for a failing run. */
  lemma {:induction false} SpentBound(data: bytes, pos: nat, cfg: Config, depth: int)
    requires pos <= |data|
    ensures var r := Parse(ValueMode, data, pos, cfg, depth);
      Thrifty(Spent(data, pos, cfg, depth), r.Ok?, r.pos - pos, |data| - pos, Levels(cfg, depth))
    decreases |data| - pos, 0
  {
    if pos < |data| && ShapeOf(data[pos]).Counted? {
      var field, kind := ShapeOf(data[pos]).field, ShapeOf(data[pos]).kind;
      var p := pos + 1 + Width(field);
      if p <= |data| {
        var n := CountFrom(field, data[pos + 1..p]);
        CountedBound(data, p, data[pos], kind, n, cfg, depth);
        BudgetMonotone(|data| - p, |data| - pos, Levels(cfg, depth));
      }
    }
  }

  lemma {:induction false} CountedBound(data: bytes, pos: nat, format: byte, kind: Kind, n: nat, cfg: Config,
                                        depth: int)
    requires pos <= |data|
    ensures var r := ParseCounted(ValueMode, data, pos, format, kind, n, cfg, depth);
      Thrifty(SpentCounted(data, pos, kind, n, cfg, depth), r.Ok?, r.pos - pos + 1, |data| - pos, Levels(cfg, depth))
    decreases |data| - pos, 3
  {
    var room := n <= cfg.Limit(kind) && pos + Needed(kind, n) <= |data| && depth + 1 <= cfg.maxDepth;
    if (kind.Arr? || kind.Map?) && room {
      AllBound(data, pos, Units(kind, n), kind.Map?, cfg, depth + 1);
      assert Levels(cfg, depth) == Levels(cfg, depth + 1) + 1;
    }
  }

  /** Every item read leaves a byte it made no slot for; an item that fails costs what is left once per level. */
  lemma {:induction false} AllBound(data: bytes, pos: nat, n: nat, keyed: bool, cfg: Config, depth: int)
    requires pos <= |data|
    ensures var r := ParseAll(ValueMode, data, pos, n, keyed, cfg, depth);
      if r.Ok? then SpentAll(data, pos, n, cfg, depth) + n <= r.pos - pos
      else SpentAll(data, pos, n, cfg, depth) <= Budget(|data| - pos, Levels(cfg, depth))
    decreases |data| - pos, 2, n
  {
    if n > 0 {
      ItemRead1(data, pos, n, keyed, cfg, depth);
      SpentBound(data, pos, cfg, depth);
      var first := Parse(ValueMode, data, pos, cfg, depth);
      if first.Ok? {
        AllBound(data, first.pos, n - 1, keyed, cfg, depth);
        BudgetSplit(first.pos - pos, |data| - first.pos, Levels(cfg, depth));
      }
    }
  }
}
