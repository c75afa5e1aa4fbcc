/** The typed writes and reads of `ByteArray` on flat bytes, one by one and in sequence. */
module TypedStream {
  import opened Bytes
  import opened Codec
  import ByteArrays

  datatype Prefix = F16 | F32 | F64 | Vint

  /** The write and read pairs. `wide` tells the 64-bit varints from the 32-bit ones. */
  datatype Kind = Fixed(octets: nat, signed: bool) | Plain(wide: bool) | ZigzagInt(wide: bool) | Text(prefix: Prefix)

  datatype Value = Num(n: int) | Str(s: seq<byte>)

  datatype Item = Item(kind: Kind, value: Value)

  function Width(wide: bool): nat { if wide then 8 else 4 }

  /** How many bytes the two varint loops read at most. */
  function Rounds(wide: bool): nat { if wide then 10 else 5 }

  /** The argument types of the write functions. */
  predicate Typed(item: Item) {
    match item
    case Item(Fixed(n, signed), Num(v)) =>
      n in {1, 2, 4, 8} && if signed then -(Limit(n) / 2) <= v < Limit(n) / 2 else 0 <= v < Limit(n)
    case Item(Plain(wide), Num(v)) => 0 <= v < Limit(Width(wide))
    case Item(ZigzagInt(wide), Num(v)) => -(Limit(Width(wide)) / 2) <= v < Limit(Width(wide)) / 2
    case Item(Text(_), Str(s)) => |s| < TWO_64
    case _ => false
  }

  /** What survives the narrow places: `readInt64` reads a 32-bit varint, and the 16-bit and
      32-bit prefixes drop the high bits of a longer length. */
  predicate Narrow(item: Item) {
    match item
    case Item(ZigzagInt(true), Num(v)) => -0x8000_0000 <= v < 0x8000_0000
    case Item(Text(F16), Str(s)) => |s| < TWO_16
    case Item(Text(F32), Str(s)) => |s| < TWO_32
    case _ => true
  }

  // ----- On flat bytes -----

  function EncodePrefix(p: Prefix, n: nat, little: bool): (s: seq<byte>)
    requires n < TWO_64
    ensures 0 < |s|
  {
    Limits();
    match p
    case F16 => Image(n % TWO_16, 2, little)
    case F32 => Image(n % TWO_32, 4, little)
    case F64 => Image(n, 8, little)
    case Vint => Varint(n)
  }

  function Encode(item: Item, little: bool): (s: seq<byte>)
    requires Typed(item)
    ensures 0 < |s|
  {
    match item
    case Item(Fixed(n, _), Num(v)) => Image(Unsigned(v, n), n, little)
    case Item(Plain(_), Num(v)) => Varint(v)
    case Item(ZigzagInt(wide), Num(v)) => Varint(Zigzag(v, Width(wide)))
    case Item(Text(p), Str(s)) => EncodePrefix(p, |s|, little) + s
  }

  // ----- Which byte stands where -----

  /** A fixed-width integer, negative ones as their remainder: the octet of weight `Limit(k)` stands at
      place `k` in little-endian order and at place `n - 1 - k` in big-endian order. */
  lemma FixedAt(n: nat, signed: bool, v: int, little: bool, k: nat)
    requires Typed(Item(Fixed(n, signed), Num(v))) && k < n
    ensures var e, u := Encode(Item(Fixed(n, signed), Num(v)), little), if v < 0 then v + Limit(n) else v;
            |e| == n && e[if little then k else n - 1 - k] == u / Limit(k) % 256
  {
    hide Image;
    ImageAt(Unsigned(v, n), n, little, if little then k else n - 1 - k);
  }

  /** A varint: seven bits to a byte, the low ones first, and 128 added to all but the last byte; a
      zigzag value is doubled, and a negative one mirrored onto the odd numbers. */
  lemma VarintItemAt(item: Item, little: bool, k: nat)
    requires Typed(item) && (item.kind.Plain? || item.kind.ZigzagInt?) && k < |Encode(item, little)|
    ensures var v, e := item.value.n, Encode(item, little);
            var u := if item.kind.Plain? then v else if v < 0 then -2 * v - 1 else 2 * v;
            e[k] == Digit(u, k) + if k + 1 < |e| then 128 else 0
  {
    hide Varint, Digit, Limit, Zigzag;
    var v := item.value.n;
    if item.kind.Plain? {
      VarintAt(v, k);
    } else {
      Limits();
      ZigzagRoundTrip(v, Width(item.kind.wide));
      VarintAt(Zigzag(v, Width(item.kind.wide)), k);
    }
  }

  /** A string stands behind its length, which is an unsigned integer of 16, 32 or 64 bits, cut to that
      width, or a varint. */
  lemma TextAt(p: Prefix, t: seq<byte>, little: bool, k: nat)
    requires |t| < TWO_64
    ensures var e, n := Encode(Item(Text(p), Str(t)), little), |EncodePrefix(p, |t|, little)|;
            && e == EncodePrefix(p, |t|, little) + t
            && (p.Vint? ==> EncodePrefix(p, |t|, little) == Varint(|t|))
            && (!p.Vint? ==> n == match p case F16 => 2 case F32 => 4 case _ => 8)
            && (!p.Vint? && k < n ==> e[if little then k else n - 1 - k] == |t| / Limit(k) % 256)
  {
    Limits();
    hide Image, Limit;
    match p
    case F16 => CutAt(|t|, 2, little, k);
    case F32 => CutAt(|t|, 4, little, k);
    case F64 => if k < 8 { ImageAt(|t|, 8, little, if little then k else 7 - k); }
    case Vint =>
  }

  /** Cutting a length to `n` octets leaves the octets below as they are. */
  lemma CutAt(v: nat, n: nat, little: bool, k: nat)
    ensures k < n ==> Image(v % Limit(n), n, little)[if little then k else n - 1 - k] == v / Limit(k) % 256
  {
    if k < n {
      ImageAt(v % Limit(n), n, little, if little then k else n - 1 - k);
      OctetsCut(v, n);
      OctetAt(v, n, k);
      OctetAt(v % Limit(n), n, k);
    }
  }

  lemma {:induction false} OctetsCut(v: nat, n: nat)
    ensures Octets(v % Limit(n), n) == Octets(v, n)
  {
    if n > 0 {
      CutSplits(v, Limit(n - 1));
      OctetsCut(v / 256, n - 1);
    }
  }

  lemma CutSplits(v: nat, m: nat)
    requires 0 < m
    ensures var c := v % (256 * m); c % 256 == v % 256 && c / 256 == v / 256 % m
  {
    var q, r := v / 256 / m, v / 256 % m;
    assert v / 256 == q * m + r;
    assert v == q * (256 * m) + (256 * r + v % 256);
    ByteArrays.DivUnique(v, 256 * m, q, 256 * r + v % 256);
  }

  /** An unsigned integer of `n` octets, and the place after it. */
  function DecodeFixed(n: nat, little: bool, s: seq<byte>, at: nat): Option<(nat, nat)> {
    if at + n <= |s| then Some((FromImage(s[at..at + n], little), at + n)) else None
  }

  /** `readUint32` and `readUint64`: the value is cut to the width of the result. */
  function DecodePlain(wide: bool, s: seq<byte>, at: nat): (r: Option<(nat, nat)>)
    ensures r.Some? ==> r.value.0 < Limit(Width(wide)) && at <= r.value.1 && (at <= |s| ==> r.value.1 <= |s|)
  {
    match ScanVarint(s, at, Rounds(wide))
    case None => None
    case Some(x) => Some((x.0 % Limit(Width(wide)), x.1))
  }

  /** The 32-bit read looks at five bytes at most and the 64-bit read at ten; what these spell is cut to
      the width. */
  lemma PlainReads(wide: bool, s: seq<byte>, at: nat)
    ensures var r := ScanVarint(s, at, if wide then 10 else 5);
            && Reads(s, at, if wide then 10 else 5, r)
            && DecodePlain(wide, s, at) ==
               if r.None? then None else Some((r.value.0 % (if wide then TWO_64 else TWO_32), r.value.1))
  {
    hide Reads, ScanVarint;
    Limits();
    ScanReads(s, at, if wide then 10 else 5);
  }

  function DecodePrefix(p: Prefix, little: bool, s: seq<byte>, at: nat): Option<(nat, nat)> {
    match p
    case F16 => DecodeFixed(2, little, s, at)
    case F32 => DecodeFixed(4, little, s, at)
    case F64 => DecodeFixed(8, little, s, at)
    case Vint => DecodePlain(true, s, at)
  }

  /** The read that goes with each write: a value and the place after it, or nothing when it would
      pass the end. */
  function Decode(kind: Kind, little: bool, s: seq<byte>, at: nat): Option<(Value, nat)> {
    match kind
    case Fixed(n, signed) => (
      match DecodeFixed(n, little, s, at)
      case None => None
      case Some(x) => Some((Num(if signed then Signed(x.0, n) else x.0), x.1)))
    case Plain(wide) => (
      match DecodePlain(wide, s, at)
      case None => None
      case Some(x) => Some((Num(x.0), x.1)))
    case ZigzagInt(wide) => (
      match DecodePlain(false, s, at)
      case None => None
      case Some(x) =>
        Limits();
        Some((Num(Unzigzag(x.0, Width(wide))), x.1)))
    case Text(p) => (
      match DecodePrefix(p, little, s, at)
      case None => None
      case Some(x) => if x.1 + x.0 <= |s| then Some((Str(s[x.1..x.1 + x.0]), x.1 + x.0)) else None)
  }

  /** Bytes `t` stand in `s` at `at`. */
  ghost predicate At(s: seq<byte>, at: nat, t: seq<byte>) {
    at + |t| <= |s| && s[at..at + |t|] == t
  }

  lemma AtSplit(s: seq<byte>, at: nat, a: seq<byte>, b: seq<byte>)
    requires At(s, at, a + b)
    ensures At(s, at, a) && At(s, at + |a|, b)
  {
    var t := s[at..at + |a + b|];
    assert s[at..at + |a|] == t[..|a|] == a;
    assert s[at + |a|..at + |a| + |b|] == t[|a|..] == b;
  }

  lemma FixedBack(v: nat, n: nat, little: bool, s: seq<byte>, at: nat)
    requires v < Limit(n) && At(s, at, Image(v, n, little))
    ensures DecodeFixed(n, little, s, at) == Some((v, at + n))
  {
    JoinedOctets(v, n);
    BackwardsTwice(Octets(v, n));
  }

  lemma PlainLength(v: nat, wide: bool)
    requires v < Limit(Width(wide))
    ensures |Varint(v)| <= Rounds(wide)
  {
    Limits();
    VarintRooms();
    VarintLength(v, Rounds(wide) - 1);
  }

  lemma PlainBack(v: nat, wide: bool, s: seq<byte>, at: nat)
    requires v < Limit(Width(wide)) && At(s, at, Varint(v))
    ensures DecodePlain(wide, s, at) == Some((v, at + |Varint(v)|))
  {
    hide Varint, ScanVarint;
    PlainLength(v, wide);
    VarintRoundTrip(v, s, at, Rounds(wide));
    SmallRemainder(v, Limit(Width(wide)));
  }

  /** A 64-bit zigzag value comes back from the 32-bit read exactly when it fits in 32 bits. */
  lemma WideZigzagBack(v: int, s: seq<byte>, at: nat)
    requires -(Limit(8) / 2) <= v < Limit(8) / 2 && At(s, at, Varint(Zigzag(v, 8)))
    ensures var r := DecodePlain(false, s, at);
            r.Some? && (Unzigzag(r.value.0, 4 + 4) == v <==> -0x8000_0000 <= v < 0x8000_0000)
                    && (-0x8000_0000 <= v < 0x8000_0000 ==> r.value.1 == at + |Varint(Zigzag(v, 8))|)
  {
    Limits();
    ZigzagRoundTrip(v, 8);
    var z := Zigzag(v, 8);
    assert z == if v < 0 then -v * 2 - 1 else v * 2;
    if z < TWO_32 {
      PlainBack(z, false, s, at);
    } else {
      VarintRoundTrip(z, s, at, 5);
      var u := DecodePlain(false, s, at).value.0;
      if Unzigzag(u, 8) == v { UnzigzagInjective(u, z, 8); }
    }
  }

  lemma PrefixBack(p: Prefix, n: nat, little: bool, s: seq<byte>, at: nat)
    requires n < TWO_64 && At(s, at, EncodePrefix(p, n, little))
    ensures DecodePrefix(p, little, s, at) ==
            Some((match p case F16 => n % TWO_16 case F32 => n % TWO_32 case _ => n, at + |EncodePrefix(p, n, little)|))
  {
    Limits();
    match p
    case F16 => FixedBack(n % TWO_16, 2, little, s, at);
    case F32 => FixedBack(n % TWO_32, 4, little, s, at);
    case F64 => FixedBack(n, 8, little, s, at);
    case Vint => PlainBack(n, true, s, at);
  }

  /** One item: the value comes back, and the read ends where the write ended, exactly for the items
      that are narrow enough. */
  lemma ItemRoundTrip(item: Item, little: bool, s: seq<byte>, at: nat)
    requires Typed(item) && At(s, at, Encode(item, little))
    ensures var r := Decode(item.kind, little, s, at);
            if Narrow(item) then r == Some((item.value, at + |Encode(item, little)|))
            else r.Some? && r.value.0 != item.value
  {
    hide At, Varint, Image, Zigzag, EncodePrefix, DecodePrefix, DecodePlain, DecodeFixed, Limit;
    match item
    case Item(Fixed(n, signed), Num(v)) => FixedItemBack(n, signed, v, little, s, at);
    case Item(Plain(wide), Num(v)) => PlainBack(v, wide, s, at);
    case Item(ZigzagInt(false), Num(v)) => ZigzagBack(v, s, at);
    case Item(ZigzagInt(true), Num(v)) => WideZigzagBack(v, s, at);
    case Item(Text(p), Str(t)) => TextBack(p, t, little, s, at);
  }

  lemma FixedItemBack(n: nat, signed: bool, v: int, little: bool, s: seq<byte>, at: nat)
    requires Typed(Item(Fixed(n, signed), Num(v))) && At(s, at, Image(Unsigned(v, n), n, little))
    ensures Decode(Fixed(n, signed), little, s, at) == Some((Num(v), at + n))
  {
    hide Image, DecodeFixed;
    FixedBack(Unsigned(v, n), n, little, s, at);
  }

  lemma ZigzagBack(v: int, s: seq<byte>, at: nat)
    requires -(Limit(4) / 2) <= v < Limit(4) / 2 && At(s, at, Varint(Zigzag(v, 4)))
    ensures var r := DecodePlain(false, s, at);
            r == Some((Zigzag(v, 4), at + |Varint(Zigzag(v, 4))|)) && Unzigzag(r.value.0, 4) == v
  {
    PlainBack(Zigzag(v, 4), false, s, at);
    ZigzagRoundTrip(v, 4);
  }

  lemma TextBack(p: Prefix, t: seq<byte>, little: bool, s: seq<byte>, at: nat)
    requires |t| < TWO_64 && At(s, at, EncodePrefix(p, |t|, little) + t)
    ensures var item := Item(Text(p), Str(t));
            var r := Decode(Text(p), little, s, at);
            if Narrow(item) then r == Some((Str(t), at + |EncodePrefix(p, |t|, little)| + |t|))
            else r.Some? && r.value.0 != Str(t)
  {
    hide EncodePrefix, DecodePrefix;
    var e := EncodePrefix(p, |t|, little);
    AtSplit(s, at, e, t);
    PrefixBack(p, |t|, little, s, at);
  }

  /** A 64-bit value one past the 32-bit range does not survive `writeInt64` and `readInt64`. */
  lemma WideZigzagLoses()
    ensures var item := Item(ZigzagInt(true), Num(0x8000_0000));
            Typed(item) && Decode(item.kind, true, Encode(item, true), 0) != Some((item.value, |Encode(item, true)|))
  {
    Limits();
    var item := Item(ZigzagInt(true), Num(0x8000_0000));
    ItemRoundTrip(item, true, Encode(item, true), 0);
  }

  // ----- Sequences of items -----

  function EncodeAll(items: seq<Item>, little: bool): seq<byte>
    requires forall x :: x in items ==> Typed(x)
  {
    if items == [] then [] else Encode(items[0], little) + EncodeAll(items[1..], little)
  }

  function DecodeAll(kinds: seq<Kind>, little: bool, s: seq<byte>, at: nat): Option<(seq<Value>, nat)> {
    if kinds == [] then Some(([], at))
    else match Decode(kinds[0], little, s, at)
      case None => None
      case Some(x) =>
        match DecodeAll(kinds[1..], little, s, x.1)
        case None => None
        case Some(rest) => Some(([x.0] + rest.0, rest.1))
  }

  function Kinds(items: seq<Item>): seq<Kind> {
    if items == [] then [] else [items[0].kind] + Kinds(items[1..])
  }

  function Values(items: seq<Item>): seq<Value> {
    if items == [] then [] else [items[0].value] + Values(items[1..])
  }

  lemma ConsEquals<T>(x: T, s: seq<T>, y: T, t: seq<T>)
    ensures [x] + s == [y] + t <==> x == y && s == t
  {
    assert ([x] + s)[0] == x && ([x] + s)[1..] == s;
    assert ([y] + t)[0] == y && ([y] + t)[1..] == t;
  }

  /** The matching reads return the written values in order, and then end where the writes ended,
      exactly when every item is narrow enough. */
  lemma {:induction false} TypedRoundTrip(items: seq<Item>, little: bool, s: seq<byte>, at: nat)
    requires (forall x :: x in items ==> Typed(x)) && At(s, at, EncodeAll(items, little))
    ensures var r := DecodeAll(Kinds(items), little, s, at);
            && (r.Some? && r.value.0 == Values(items) <==> forall x :: x in items ==> Narrow(x))
            && (r.Some? && r.value.0 == Values(items) ==> r.value.1 == at + |EncodeAll(items, little)|)
  {
    hide Encode, Decode, Narrow, Typed;
    if items != [] {
      var e, rest := Encode(items[0], little), EncodeAll(items[1..], little);
      AtSplit(s, at, e, rest);
      ItemRoundTrip(items[0], little, s, at);
      assert items == [items[0]] + items[1..];
      assert (forall x :: x in items ==> Narrow(x)) <==> Narrow(items[0]) && forall x :: x in items[1..] ==> Narrow(x);
      if Narrow(items[0]) {
        TypedRoundTrip(items[1..], little, s, at + |e|);
      }
      var first := Decode(items[0].kind, little, s, at).value;
      var others := DecodeAll(Kinds(items[1..]), little, s, first.1);
      if others.Some? { ConsEquals(first.0, others.value.0, items[0].value, Values(items[1..])); }
    }
  }
}
