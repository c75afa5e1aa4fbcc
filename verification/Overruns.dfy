/** How many bytes the typed reads of `ByteArray` write behind their destinations. Each reads into a
    local or a string of exactly the bytes it asks for, and every single `read` may overrun it. */
module Overruns {
  import opened Bytes
  import opened Codec
  import opened ByteArrays
  import opened TypedStream

  function ByteSpill(at: nat, size: nat): nat
    requires 0 < size
  {
    Overrun(at, 1, size)
  }

  /** One byte after the other into a one-byte local. */
  function VarintSpill(s: seq<byte>, at: nat, rounds: nat, size: nat): nat
    requires 0 < size
    decreases rounds
  {
    if rounds == 0 || at >= |s| then 0
    else ByteSpill(at, size) + if s[at] < 128 then 0 else VarintSpill(s, at + 1, rounds - 1, size)
  }

  function FixedSpill(n: nat, s: seq<byte>, at: nat, size: nat): nat
    requires 0 < size
  {
    if at + n <= |s| then Overrun(at, n, size) else 0
  }

  function PrefixSpill(p: Prefix, s: seq<byte>, at: nat, size: nat): nat
    requires 0 < size
  {
    match p
    case F16 => FixedSpill(2, s, at, size)
    case F32 => FixedSpill(4, s, at, size)
    case F64 => FixedSpill(8, s, at, size)
    case Vint => VarintSpill(s, at, Rounds(true), size)
  }

  function Spill(kind: Kind, little: bool, s: seq<byte>, at: nat, size: nat): nat
    requires 0 < size
  {
    match kind
    case Fixed(n, _) => FixedSpill(n, s, at, size)
    case Plain(wide) => VarintSpill(s, at, Rounds(wide), size)
    case ZigzagInt(_) => VarintSpill(s, at, Rounds(false), size)
    case Text(p) =>
      PrefixSpill(p, s, at, size) +
      match DecodePrefix(p, little, s, at)
      case None => 0
      case Some(x) => FixedSpill(x.0, s, x.1, size)
  }

  function SpillAll(kinds: seq<Kind>, little: bool, s: seq<byte>, at: nat, size: nat): nat
    requires 0 < size
  {
    if kinds == [] then 0
    else
      Spill(kinds[0], little, s, at, size) +
      match Decode(kinds[0], little, s, at)
      case None => 0
      case Some(x) => SpillAll(kinds[1..], little, s, x.1, size)
  }

  // ----- When nothing is spilled

  /** A varint of `n` bytes at `at`: blocks of one byte, or a single byte that ends its block. */
  predicate VarintContained(n: nat, at: nat, size: nat)
    requires 0 < size
  {
    size == 1 || (n == 1 && (at + 1) % size == 0)
  }

  predicate PrefixContained(p: Prefix, n: nat, at: nat, size: nat)
    requires 0 < size
  {
    match p
    case F16 => (at + 2) % size == 0
    case F32 => (at + 4) % size == 0
    case F64 => (at + 8) % size == 0
    case Vint => VarintContained(|Varint(n)|, at, size)
  }

  /** What a caller can tell before writing `item` at `at` about reading it back. */
  predicate Contained(item: Item, little: bool, at: nat, size: nat)
    requires Typed(item) && 0 < size
  {
    match item
    case Item(Fixed(n, _), Num(_)) => (at + n) % size == 0
    case Item(Text(p), Str(t)) =>
      && PrefixContained(p, |t|, at, size)
      && (t == [] || (at + |Encode(item, little)|) % size == 0)
    case _ => VarintContained(|Encode(item, little)|, at, size)
  }

  predicate AllContained(items: seq<Item>, little: bool, at: nat, size: nat)
    requires 0 < size && forall x :: x in items ==> Typed(x)
  {
    items == [] || (
      && Contained(items[0], little, at, size)
      && AllContained(items[1..], little, at + |Encode(items[0], little)|, size))
  }

  lemma NextIsNoBoundary(x: nat, size: nat)
    requires 1 < size && x % size == 0
    ensures (x + 1) % size != 0
  {
    DivUnique(x + 1, size, x / size, 1);
  }

  lemma {:induction false} UnitBlocks(s: seq<byte>, at: nat, rounds: nat)
    ensures VarintSpill(s, at, rounds, 1) == 0
    decreases rounds
  {
    if rounds > 0 && at < |s| { UnitBlocks(s, at + 1, rounds - 1); }
  }

  lemma VarintStays(v: nat, s: seq<byte>, at: nat, rounds: nat, size: nat)
    requires 0 < size && |Varint(v)| <= rounds && At(s, at, Varint(v))
    ensures VarintSpill(s, at, rounds, size) == 0 <==> VarintContained(|Varint(v)|, at, size)
  {
    var t := Varint(v);
    assert s[at] == s[at..at + |t|][0] == t[0];
    if size == 1 {
      UnitBlocks(s, at, rounds);
    } else if v >= 128 {
      assert s[at + 1] == s[at..at + |t|][1];
      if (at + 1) % size == 0 { NextIsNoBoundary(at + 1, size); }
    }
  }

  lemma PrefixStays(p: Prefix, n: nat, little: bool, s: seq<byte>, at: nat, size: nat)
    requires 0 < size && n < TWO_64 && At(s, at, EncodePrefix(p, n, little))
    ensures PrefixSpill(p, s, at, size) == 0 <==> PrefixContained(p, n, at, size)
  {
    if p.Vint? {
      PlainLength(n, true);
      VarintStays(n, s, at, Rounds(true), size);
    }
  }

  /** Reading a written item back stays inside its destinations exactly when it is contained. */
  lemma ItemStays(item: Item, little: bool, s: seq<byte>, at: nat, size: nat)
    requires 0 < size && Typed(item) && Narrow(item) && At(s, at, Encode(item, little))
    ensures Spill(item.kind, little, s, at, size) == 0 <==> Contained(item, little, at, size)
  {
    hide Varint, Limit, VarintSpill, PrefixSpill, PrefixContained, VarintContained, EncodePrefix, DecodePrefix, Zigzag;
    match item
    case Item(Fixed(n, _), Num(v)) =>
    case Item(Plain(wide), Num(v)) =>
      PlainLength(v, wide);
      VarintStays(v, s, at, Rounds(wide), size);
    case Item(ZigzagInt(wide), Num(v)) =>
      NarrowZigzag(v, wide);
      PlainLength(Zigzag(v, Width(wide)), false);
      VarintStays(Zigzag(v, Width(wide)), s, at, Rounds(false), size);
    case Item(Text(p), Str(t)) => TextStays(p, t, little, s, at, size);
  }

  lemma NarrowZigzag(v: int, wide: bool)
    requires Typed(Item(ZigzagInt(wide), Num(v))) && Narrow(Item(ZigzagInt(wide), Num(v)))
    ensures Zigzag(v, Width(wide)) < Limit(4)
  {
    Limits();
    ZigzagRoundTrip(v, Width(wide));
  }

  lemma TextStays(p: Prefix, t: seq<byte>, little: bool, s: seq<byte>, at: nat, size: nat)
    requires 0 < size && |t| < TWO_64 && Narrow(Item(Text(p), Str(t)))
    requires At(s, at, EncodePrefix(p, |t|, little) + t)
    ensures Spill(Text(p), little, s, at, size) == 0 <==> Contained(Item(Text(p), Str(t)), little, at, size)
  {
    hide PrefixSpill, PrefixContained, EncodePrefix, DecodePrefix, FixedSpill, At;
    var e := EncodePrefix(p, |t|, little);
    AtSplit(s, at, e, t);
    PrefixBack(p, |t|, little, s, at);
    PrefixStays(p, |t|, little, s, at, size);
    BodyStays(t, s, at + |e|, size);
  }

  lemma BodyStays(t: seq<byte>, s: seq<byte>, at: nat, size: nat)
    requires 0 < size && At(s, at, t)
    ensures FixedSpill(|t|, s, at, size) == 0 <==> t == [] || (at + |t|) % size == 0
  {
  }

  /** The same for a sequence of items. */
  lemma {:induction false} AllStay(items: seq<Item>, little: bool, s: seq<byte>, at: nat, size: nat)
    requires 0 < size && (forall x :: x in items ==> Typed(x) && Narrow(x)) && At(s, at, EncodeAll(items, little))
    ensures SpillAll(Kinds(items), little, s, at, size) == 0 <==> AllContained(items, little, at, size)
  {
    hide Encode, Decode, Narrow, Typed, Spill, Contained;
    if items != [] {
      var e, rest := Encode(items[0], little), EncodeAll(items[1..], little);
      AtSplit(s, at, e, rest);
      ItemRoundTrip(items[0], little, s, at);
      ItemStays(items[0], little, s, at, size);
      AllStay(items[1..], little, s, at + |e|, size);
      assert Kinds(items)[0] == items[0].kind && Kinds(items)[1..] == Kinds(items[1..]);
    }
  }
}
