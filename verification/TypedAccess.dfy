/** The typed writes and reads of `ByteArray` as they run over the block list. `little` is the chosen
    byte order and `host` that of the machine. */
module TypedAccess {
  import opened Bytes
  import opened Codec
  import opened ByteArrays
  import opened TypedStream
  import opened Overruns

  /** A value, the out-of-range exception, or a read that follows the null block pointer. */
  datatype Outcome<+T> = Got(value: T) | OutOfRange | NullBlock

  /** The readable part of the flat string. */
  ghost function Readable(ba: ByteArray): seq<byte>
    requires ba.Valid()
    reads ba, ba.blocks
  {
    ba.bytes[..ba.size]
  }

  /** The loop of `writeUint32` and `writeUint64` over its staging array. */
  method StageVarint(v: nat, wide: bool) returns (s: seq<byte>)
    requires v < Limit(Width(wide))
    ensures s == Varint(v)
  {
    PlainLength(v, wide);
    hide Varint, Limit;
    var tmp := new byte[Rounds(wide)];
    var i, value := 0, v;
    ghost var done: seq<byte> := [];
    while value >= 0x80
      invariant 0 <= value && 0 <= i == |done| && i + |Varint(value)| <= tmp.Length
      invariant done + Varint(value) == Varint(v)
      invariant forall k :: 0 <= k < i ==> tmp[k] == done[k]
    {
      tmp[i] := value % 0x80 + 0x80;
      VarintStep(done, value);
      done := done + [tmp[i]];
      i, value := i + 1, value / 0x80;
    }
    VarintStep(done, value);
    tmp[i] := value;
    s := tmp[..i + 1];
    assert s == done + [value];
  }

  lemma VarintStep(done: seq<byte>, v: nat)
    ensures v >= 128 ==> |Varint(v)| == 1 + |Varint(v / 128)|
    ensures v >= 128 ==> done + Varint(v) == done + [v % 128 + 128] + Varint(v / 128)
    ensures v < 128 ==> Varint(v) == [v]
  {
  }

  /** Each typed write puts the encoding of its value at the cursor. */
  method Put(ba: ByteArray, item: Item, little: bool, host: bool)
    requires ba.Valid() && Typed(item)
    modifies ba, ba.blocks
    ensures ba.Valid() && old(ba.blocks) <= ba.blocks
    ensures forall i :: |old(ba.blocks)| <= i < |ba.blocks| ==> fresh(ba.blocks[i])
    ensures ba.position == old(ba.position) + |Encode(item, little)| <= ba.size
    ensures Flatly(old(ba.bytes), ba.bytes, old(ba.position), Encode(item, little))
    ensures Tight(old(ba.capacity), ba.capacity, ba.position, ba.baseSize)
  {
    if item.value.Str? {
      PutText(ba, item.kind.prefix, item.value.s, little, host);
    } else {
      var s := StageNumber(item, little, host);
      ba.Write(s);
    }
  }

  /** The bytes that the integer writes hand to `write`. */
  method StageNumber(item: Item, little: bool, host: bool) returns (s: seq<byte>)
    requires Typed(item) && item.value.Num?
    ensures s == Encode(item, little)
  {
    hide Image, Varint, Zigzag;
    match item
    case Item(Fixed(n, _), Num(v)) =>
      StoredOrder(Unsigned(v, n), n, little, host);
      s := StoreFixed(Unsigned(v, n), n, little, host);
    case Item(Plain(wide), Num(v)) =>
      s := StageVarint(v, wide);
    case Item(ZigzagInt(wide), Num(v)) =>
      s := StageVarint(Zigzag(v, Width(wide)), wide);
  }

  method PutText(ba: ByteArray, p: Prefix, t: seq<byte>, little: bool, host: bool)
    requires ba.Valid() && |t| < TWO_64
    modifies ba, ba.blocks
    ensures ba.Valid() && old(ba.blocks) <= ba.blocks
    ensures forall i :: |old(ba.blocks)| <= i < |ba.blocks| ==> fresh(ba.blocks[i])
    ensures ba.position == old(ba.position) + |EncodePrefix(p, |t|, little)| + |t| <= ba.size
    ensures Flatly(old(ba.bytes), ba.bytes, old(ba.position), EncodePrefix(p, |t|, little) + t)
    ensures Tight(old(ba.capacity), ba.capacity, ba.position, ba.baseSize)
  {
    hide EncodePrefix, Flatly, Tight;
    PutPrefix(ba, p, |t|, little, host);
    ghost var mid, mark, cap := ba.bytes, ba.position, ba.capacity;
    ba.Write(t);
    TightTwice(old(ba.capacity), cap, ba.capacity, mark, ba.position, ba.baseSize);
    FlatlyMore(old(ba.bytes), mid, ba.bytes, old(ba.position), EncodePrefix(p, |t|, little), t);
  }

  method PutPrefix(ba: ByteArray, p: Prefix, n: nat, little: bool, host: bool)
    requires ba.Valid() && n < TWO_64
    modifies ba, ba.blocks
    ensures ba.Valid() && old(ba.blocks) <= ba.blocks
    ensures forall i :: |old(ba.blocks)| <= i < |ba.blocks| ==> fresh(ba.blocks[i])
    ensures ba.position == old(ba.position) + |EncodePrefix(p, n, little)|
    ensures Flatly(old(ba.bytes), ba.bytes, old(ba.position), EncodePrefix(p, n, little))
    ensures Tight(old(ba.capacity), ba.capacity, ba.position, ba.baseSize)
  {
    Limits();
    var s;
    match p {
      case F16 =>
        StoredOrder(n % TWO_16, 2, little, host);
        s := StoreFixed(n % TWO_16, 2, little, host);
      case F32 =>
        StoredOrder(n % TWO_32, 4, little, host);
        s := StoreFixed(n % TWO_32, 4, little, host);
      case F64 =>
        StoredOrder(n, 8, little, host);
        s := StoreFixed(n, 8, little, host);
      case Vint =>
        s := StageVarint(n, true);
    }
    ba.Write(s);
  }

  /** `read` of `n` bytes into a destination of exactly that size. `memory` is that destination and
      what stands behind it, of which the first `spill` bytes are overwritten. */
  method Fetch(ba: ByteArray, n: nat) returns (r: Outcome<seq<byte>>, spill: nat)
    requires ba.Valid()
    modifies ba`position, ba`cur
    ensures ba.Valid()
    ensures r.NullBlock? <==> n == 0 && old(ba.position) == ba.capacity
    ensures r.Got? <==> !r.NullBlock? && old(ba.position) + n <= ba.size
    ensures ba.position == old(ba.position) + if r.Got? then n else 0
    ensures r.Got? ==> r.value == Readable(ba)[old(ba.position)..old(ba.position) + n]
    ensures spill == if r.Got? then Overrun(old(ba.position), n, ba.baseSize) else 0
  {
    hide Overrun, Copied;
    spill := Overrun(ba.position, n, ba.baseSize);
    var memory := new byte[n + spill];
    ghost var start := ba.position;
    ghost var was := memory[..];
    var end := ba.Read(memory, n);
    if end.TooShort? { return OutOfRange, 0; }
    if end.FollowsNull? { return NullBlock, 0; }
    CopiedPrefix(was, memory[..], ba.bytes, start, n + spill, n, ba.size);
    r := Got(memory[..n]);
    assert memory[..][..n] == memory[..n];
  }

  lemma CopiedPrefix(a: seq<byte>, b: seq<byte>, bytes: seq<byte>, at: nat, total: nat, n: nat, size: nat)
    requires Copied(a, b, bytes, at, total) && n <= total && at + n <= size <= |bytes|
    ensures n <= |b| && b[..n] == bytes[..size][at..at + n]
  {
  }

  /** `readFuint8`. */
  method FetchByte(ba: ByteArray) returns (b: Option<byte>, spill: nat)
    requires ba.Valid()
    modifies ba`position, ba`cur
    ensures ba.Valid()
    ensures if old(ba.position) < ba.size
            then b == Some(Readable(ba)[old(ba.position)]) && ba.position == old(ba.position) + 1
              && spill == ByteSpill(old(ba.position), ba.baseSize)
            else b == None && ba.position == old(ba.position) && spill == 0
  {
    hide Overrun;
    var s;
    s, spill := Fetch(ba, 1);
    b := if s.Got? then Some(s.value[0]) else None;
  }

  /** Seven bits at their place in the result. */
  function Piece(digit: nat, shift: nat): nat { digit * shift }

  /** A result cut to its width. */
  function Cut(x: nat, limit: nat): nat
    requires 0 < limit
  {
    x % limit
  }

  lemma CutSmall(x: nat, limit: nat)
    requires x < limit
    ensures Cut(x, limit) == x
  {
    SmallRemainder(x, limit);
  }

  lemma CutPlain(wide: bool, s: seq<byte>, at: nat)
    ensures DecodePlain(wide, s, at) ==
            match ScanVarint(s, at, Rounds(wide))
            case None => None
            case Some(x) => Some((Cut(x.0, Limit(Width(wide))), x.1))
  {
  }

  /** The loop of `readUint32` and `readUint64`; shifted pieces do not overlap, so `|` is `+`. */
  method GetVarint(ba: ByteArray, wide: bool) returns (r: Outcome<nat>, spill: nat)
    requires ba.Valid()
    modifies ba`position, ba`cur
    ensures ba.Valid() && !r.NullBlock?
    ensures spill == VarintSpill(Readable(ba), old(ba.position), Rounds(wide), ba.baseSize)
    ensures match DecodePlain(wide, Readable(ba), old(ba.position))
            case None => r == OutOfRange && ba.position == ba.size
            case Some(x) => r == Got(x.0) && ba.position == x.1
  {
    hide Limit, Limit128, DecodePlain, Accumulated, Piece, Cut, VarintSpill, ByteSpill;
    ghost var s, start, rounds := Readable(ba), ba.position, Rounds(wide);
    var limit := Limit(Width(wide));
    var result: nat, shift: nat, i := 0, 1, 0;
    NoRounds(wide, s, start);
    spill := 0;
    while i < Rounds(wide)
      invariant ba.Valid() && i <= rounds && ba.position == start + i
      invariant shift == Limit128(i) && Accumulated(s, wide, start, i, result)
      invariant spill + VarintSpill(s, start + i, rounds - i, ba.baseSize) == VarintSpill(s, start, rounds, ba.baseSize)
    {
      SpillStep(s, start + i, rounds - i, ba.baseSize);
      var b, over := FetchByte(ba);
      spill := spill + over;
      if b.None? {
        RunsOut(wide, s, start, i, result);
        return OutOfRange, spill;
      }
      OneRound(wide, s, start, i, result);
      result := Cut(result + Piece(b.value % 128, shift), limit);
      if b.value < 0x80 {
        return Got(result), spill;
      }
      shift, i := 128 * shift, i + 1;
    }
    AllRounds(wide, s, start, result);
    SpillDone(s, start + i, ba.baseSize);
    r := Got(result);
  }

  /** The result after `i` continuation bytes: what they are worth, and cut to its width in the end. */
  ghost predicate Accumulated(s: seq<byte>, wide: bool, start: nat, i: nat, result: nat) {
    if i < Rounds(wide) then Continues(s, start, Rounds(wide), result, i) && result < Limit128(i)
    else i == Rounds(wide) && DecodePlain(wide, s, start) == Some((result, start + i))
  }

  lemma NoRounds(wide: bool, s: seq<byte>, start: nat)
    ensures Accumulated(s, wide, start, 0, 0) && Limit128(0) == 1
  {
    hide ScanVarint, Continues;
    ScanBegins(s, start, Rounds(wide));
  }

  lemma AllRounds(wide: bool, s: seq<byte>, start: nat, result: nat)
    requires Accumulated(s, wide, start, Rounds(wide), result)
    ensures DecodePlain(wide, s, start) == Some((result, start + Rounds(wide)))
  {
    hide ScanVarint, Continues, DecodePlain;
  }

  lemma RunsOut(wide: bool, s: seq<byte>, start: nat, i: nat, result: nat)
    requires i < Rounds(wide) && Accumulated(s, wide, start, i, result) && start + i >= |s|
    ensures DecodePlain(wide, s, start) == None
  {
    hide ScanVarint, Continues, Limit, Limit128;
    ScanEnds(s, start, Rounds(wide), result, i);
  }

  /** One more byte. */
  lemma OneRound(wide: bool, s: seq<byte>, start: nat, i: nat, result: nat)
    requires i < Rounds(wide) && Accumulated(s, wide, start, i, result) && start + i < |s|
    ensures Limit128(i + 1) == 128 * Limit128(i)
    ensures var b := s[start + i];
            var next := Cut(result + Piece(b % 128, Limit128(i)), Limit(Width(wide)));
            if b < 128 then DecodePlain(wide, s, start) == Some((next, start + i + 1))
            else Accumulated(s, wide, start, i + 1, next)
  {
    hide ScanVarint, Continues, Limit, Limit128, DecodePlain, Cut, Piece;
    var b := s[start + i];
    var digit: int := b % 128;
    var total := result + Piece(digit, Limit128(i));
    CutPlain(wide, s, start);
    ScanEnds(s, start, Rounds(wide), result, i);
    FitsUntilLast(wide, i, result, digit);
    if b >= 128 {
      ScanGoesOn(s, start, Rounds(wide), result, i);
      if i + 1 < Rounds(wide) {
        CutSmall(total, Limit(Width(wide)));
      } else {
        ScanFinishes(s, start, Rounds(wide), total);
      }
    }
  }

  lemma SpillStep(s: seq<byte>, at: nat, rounds: nat, size: nat)
    requires 0 < size && 0 < rounds
    ensures VarintSpill(s, at, rounds, size) ==
            if at >= |s| then 0
            else ByteSpill(at, size) + if s[at] < 128 then 0 else VarintSpill(s, at + 1, rounds - 1, size)
  {
  }

  lemma SpillDone(s: seq<byte>, at: nat, size: nat)
    requires 0 < size
    ensures VarintSpill(s, at, 0, size) == 0
  {
  }

  /** After `i` continuation bytes worth `result`, the whole scan is the scan of the rest shifted. */
  ghost predicate Continues(s: seq<byte>, start: nat, rounds: nat, result: nat, i: nat)
    requires i <= rounds
  {
    ScanVarint(s, start, rounds) ==
      match ScanVarint(s, start + i, rounds - i)
      case None => None
      case Some(x) => Some((result + Limit128(i) * x.0, x.1))
  }

  lemma ScanBegins(s: seq<byte>, start: nat, rounds: nat)
    ensures Continues(s, start, rounds, 0, 0) && Limit128(0) == 1
  {
  }

  lemma ScanFinishes(s: seq<byte>, start: nat, rounds: nat, total: nat)
    requires Continues(s, start, rounds, total, rounds)
    ensures ScanVarint(s, start, rounds) == Some((total, start + rounds))
  {
  }

  lemma ScanEnds(s: seq<byte>, start: nat, rounds: nat, result: nat, i: nat)
    requires i < rounds && Continues(s, start, rounds, result, i)
    ensures start + i >= |s| ==> ScanVarint(s, start, rounds) == None
    ensures start + i < |s| && s[start + i] < 128 ==>
              ScanVarint(s, start, rounds) == Some((result + Piece(s[start + i], Limit128(i)), start + i + 1))
  {
  }

  lemma ScanGoesOn(s: seq<byte>, start: nat, rounds: nat, result: nat, i: nat)
    requires i < rounds && Continues(s, start, rounds, result, i) && start + i < |s| && s[start + i] >= 128
    ensures Continues(s, start, rounds, result + Piece(s[start + i] - 128, Limit128(i)), i + 1)
  {
    var b, rest := s[start + i], ScanVarint(s, start + i + 1, rounds - i - 1);
    assert Limit128(i + 1) == 128 * Limit128(i);
    assert rest == None ==> ScanVarint(s, start + i, rounds - i) == None;
    hide ScanVarint, Limit128;
    if rest.Some? {
      Codec.ScanGoesOn(s, start + i, rounds - i, b - 128);
      Shifted(Limit128(i), b - 128, rest.value.0);
    }
  }

  lemma Shifted(m: nat, d: nat, x: nat)
    ensures m * (d + 128 * x) == d * m + 128 * m * x
  {
  }

  /** The pieces stay below the width of the result until the last round. */
  lemma FitsUntilLast(wide: bool, i: nat, total: nat, digit: nat)
    requires i < Rounds(wide) && total < Limit128(i) && digit < 128
    ensures total + Piece(digit, Limit128(i)) < Limit128(i + 1) == 128 * Limit128(i)
    ensures i + 1 < Rounds(wide) ==> Limit128(i + 1) <= Limit(Width(wide))
  {
    Limits();
    VarintRooms();
    assert digit * Limit128(i) <= 127 * Limit128(i);
    if i + 1 < Rounds(wide) { Limit128Grows(i + 1, Rounds(wide) - 1); }
    assert Limit128(5) == 128 * Limit128(4) && Limit128(10) == 128 * Limit128(9);
  }

  lemma {:induction false} Limit128Grows(i: nat, j: nat)
    requires i <= j
    ensures Limit128(i) <= Limit128(j)
  {
    if i < j { Limit128Grows(i, j - 1); }
  }

  predicate Known(kind: Kind) {
    kind.Fixed? ==> kind.octets in {1, 2, 4, 8}
  }

  /** Reading an unsigned integer of fixed width. */
  method GetFixed(ba: ByteArray, n: nat, little: bool, host: bool) returns (r: Outcome<nat>, spill: nat)
    requires ba.Valid() && 0 < n
    modifies ba`position, ba`cur
    ensures ba.Valid() && !r.NullBlock?
    ensures spill == FixedSpill(n, Readable(ba), old(ba.position), ba.baseSize)
    ensures match DecodeFixed(n, little, Readable(ba), old(ba.position))
            case None => r == OutOfRange && ba.position == old(ba.position)
            case Some(x) => r == Got(x.0) && ba.position == x.1
  {
    var s;
    s, spill := Fetch(ba, n);
    if !s.Got? { return OutOfRange, 0; }
    LoadedOrder(s.value, little, host);
    r := Got(LoadFixed(s.value, little, host));
  }

  method GetPrefix(ba: ByteArray, p: Prefix, little: bool, host: bool) returns (r: Outcome<nat>, spill: nat)
    requires ba.Valid()
    modifies ba`position, ba`cur
    ensures ba.Valid() && !r.NullBlock?
    ensures spill == PrefixSpill(p, Readable(ba), old(ba.position), ba.baseSize)
    ensures match DecodePrefix(p, little, Readable(ba), old(ba.position))
            case None => r == OutOfRange && ba.position == if p.Vint? then ba.size else old(ba.position)
            case Some(x) => r == Got(x.0) && ba.position == x.1
  {
    hide DecodeFixed, DecodePlain, FixedSpill, VarintSpill;
    match p
    case F16 => r, spill := GetFixed(ba, 2, little, host);
    case F32 => r, spill := GetFixed(ba, 4, little, host);
    case F64 => r, spill := GetFixed(ba, 8, little, host);
    case Vint => r, spill := GetVarint(ba, true);
  }

  method GetText(ba: ByteArray, p: Prefix, little: bool, host: bool) returns (r: Outcome<Value>, spill: nat)
    requires ba.Valid()
    modifies ba`position, ba`cur
    ensures ba.Valid()
    ensures Answers(r, Decode(Text(p), little, Readable(ba), old(ba.position)), ba.position, ba.capacity)
    ensures !r.Got? ==> ba.position == StopsAt(Text(p), little, Readable(ba), old(ba.position))
    ensures spill == Spill(Text(p), little, Readable(ba), old(ba.position), ba.baseSize)
  {
    hide DecodePrefix, PrefixSpill;
    var len, s, more;
    len, spill := GetPrefix(ba, p, little, host);
    if !len.Got? { return OutOfRange, spill; }
    ghost var at := ba.position;
    s, more := Fetch(ba, len.value);
    spill := spill + more;
    r := match s
      case Got(t) => Got(Str(t))
      case OutOfRange => OutOfRange
      case NullBlock => NullBlock;
  }

  /** A read answers with the decoded value and moves behind it, fails when nothing can be decoded,
      and breaks on an empty string that ends at full capacity. */
  ghost predicate Answers(r: Outcome<Value>, want: Option<(Value, nat)>, position: nat, capacity: nat) {
    match want
    case None => r == OutOfRange
    case Some(x) =>
      if x.0 == Str([]) && x.1 == capacity then r == NullBlock else r == Got(x.0) && position == x.1
  }

  /** Where a read that fails leaves the cursor: a varint has used up the bytes, and a string its length. */
  function StopsAt(kind: Kind, little: bool, s: seq<byte>, at: nat): nat {
    match kind
    case Fixed(_, _) => at
    case Text(p) => (
      match DecodePrefix(p, little, s, at)
      case None => if p.Vint? then |s| else at
      case Some(x) => x.1)
    case _ => |s|
  }

  /** Each typed read is `Decode` at the cursor, and writes `spill` bytes behind its destinations. */
  method Get(ba: ByteArray, kind: Kind, little: bool, host: bool) returns (r: Outcome<Value>, spill: nat)
    requires ba.Valid() && Known(kind)
    modifies ba`position, ba`cur
    ensures ba.Valid()
    ensures Answers(r, Decode(kind, little, Readable(ba), old(ba.position)), ba.position, ba.capacity)
    ensures !r.Got? ==> ba.position == StopsAt(kind, little, Readable(ba), old(ba.position))
    ensures spill == Spill(kind, little, Readable(ba), old(ba.position), ba.baseSize)
  {
    hide DecodeFixed, DecodePlain, DecodePrefix, FixedSpill, VarintSpill, PrefixSpill;
    var v;
    match kind {
      case Fixed(n, signed) =>
        v, spill := GetFixed(ba, n, little, host);
        r := if v.Got? then Got(Num(if signed then Signed(v.value, n) else v.value)) else OutOfRange;
      case Plain(wide) =>
        v, spill := GetVarint(ba, wide);
        r := if v.Got? then Got(Num(v.value)) else OutOfRange;
      case ZigzagInt(wide) =>
        Limits();
        v, spill := GetVarint(ba, false);
        r := if v.Got? then Got(Num(Unzigzag(v.value, Width(wide)))) else OutOfRange;
      case Text(p) =>
        r, spill := GetText(ba, p, little, host);
    }
  }

  lemma DecodeMoves(kind: Kind, little: bool, s: seq<byte>, at: nat)
    requires Known(kind) && at <= |s|
    ensures Decode(kind, little, s, at).Some? ==> at < Decode(kind, little, s, at).value.1 <= |s|
  {
    if kind.Text? && kind.prefix.Vint? { assert Rounds(true) == 10; }
  }

  /** Every write of a sequence in turn. */
  method PutAll(ba: ByteArray, items: seq<Item>, little: bool, host: bool)
    requires ba.Valid() && forall x :: x in items ==> Typed(x)
    modifies ba, ba.blocks
    decreases items
    ensures ba.Valid() && old(ba.blocks) <= ba.blocks
    ensures forall i :: |old(ba.blocks)| <= i < |ba.blocks| ==> fresh(ba.blocks[i])
    ensures ba.position == old(ba.position) + |EncodeAll(items, little)| <= ba.size
    ensures Flatly(old(ba.bytes), ba.bytes, old(ba.position), EncodeAll(items, little))
    ensures Tight(old(ba.capacity), ba.capacity, ba.position, ba.baseSize)
  {
    hide Encode, Flatly, Tight;
    if items == [] {
      FlatlyNothing(ba.bytes, ba.position);
      TightAlready(ba.capacity, ba.position, ba.baseSize);
      return;
    }
    Put(ba, items[0], little, host);
    ghost var mid, mark, cap := ba.bytes, ba.position, ba.capacity;
    PutAll(ba, items[1..], little, host);
    TightTwice(old(ba.capacity), cap, ba.capacity, mark, ba.position, ba.baseSize);
    FlatlyMore(old(ba.bytes), mid, ba.bytes, old(ba.position), Encode(items[0], little), EncodeAll(items[1..], little));
  }

  lemma TightAlready(capacity: nat, end: nat, size: nat)
    requires end <= capacity
    ensures Tight(capacity, capacity, end, size)
  {
  }

  lemma FlatlyNothing(a: seq<byte>, at: nat)
    requires at <= |a|
    ensures Flatly(a, a, at, [])
  {
  }

  /** An empty string read last, ending at full capacity. */
  predicate EndsNull(values: seq<Value>, end: nat, capacity: nat) {
    values != [] && values[|values| - 1] == Str([]) && end == capacity
  }

  /** Every read of a sequence in turn. */
  method GetAll(ba: ByteArray, kinds: seq<Kind>, little: bool, host: bool)
      returns (r: Outcome<seq<Value>>, spill: nat)
    requires ba.Valid() && forall k :: k in kinds ==> Known(k)
    modifies ba`position, ba`cur
    decreases kinds
    ensures ba.Valid()
    ensures match DecodeAll(kinds, little, Readable(ba), old(ba.position))
            case None => !r.Got?
            case Some(x) =>
              if EndsNull(x.0, x.1, ba.capacity) then r == NullBlock else r == Got(x.0) && ba.position == x.1
    ensures r.Got? ==> spill == SpillAll(kinds, little, Readable(ba), old(ba.position), ba.baseSize)
  {
    hide Decode, Spill;
    if kinds == [] { return Got([]), 0; }
    ghost var s, start := Readable(ba), ba.position;
    DecodeMoves(kinds[0], little, s, start);
    var first, rest, more;
    first, spill := Get(ba, kinds[0], little, host);
    if !first.Got? {
      if first.NullBlock? && |kinds| > 1 { DecodeMoves(kinds[1], little, s, |s|); }
      return if first.OutOfRange? then OutOfRange else NullBlock, spill;
    }
    rest, more := GetAll(ba, kinds[1..], little, host);
    spill := spill + more;
    r := if rest.Got? then Got([first.value] + rest.value) else rest;
  }

  /** An empty string written last that fills the capacity: it reaches what there was and ends at a
      block boundary. */
  predicate FillsUp(items: seq<Item>, end: nat, capacity: nat, size: nat)
    requires 0 < size
  {
    items != [] && items[|items| - 1].value == Str([]) && capacity <= end && end % size == 0
  }

  /** Write, rewind, read: the values come back in order and the cursor ends where the writes ended,
      for any block size and byte order, exactly when every item is narrow enough and the last one
      is not an empty string that fills the capacity. Then the reads stay inside their destinations
      exactly when every item is contained. All of this can be told before the call. */
  method WriteThenRead(ba: ByteArray, items: seq<Item>, little: bool, host: bool)
      returns (r: Outcome<seq<Value>>, spill: nat)
    requires ba.Valid() && forall x :: x in items ==> Typed(x)
    modifies ba, ba.blocks
    ensures ba.Valid()
    ensures var end := old(ba.position) + |EncodeAll(items, little)|;
            && (r == Got(Values(items)) <==>
                (forall x :: x in items ==> Narrow(x)) && !FillsUp(items, end, old(ba.capacity), ba.baseSize))
            && (r == Got(Values(items)) ==> ba.position == end)
            && ((forall x :: x in items ==> Narrow(x)) && FillsUp(items, end, old(ba.capacity), ba.baseSize) ==>
                  r == NullBlock)
    ensures r == Got(Values(items)) ==> (spill == 0 <==> AllContained(items, little, old(ba.position), ba.baseSize))
  {
    hide Flatly, At, EncodeAll, DecodeAll, Kinds, Values, Narrow, Typed, Start, SpillAll, AllContained;
    var start := ba.position;
    ghost var before, count := ba.bytes, |ba.blocks|;
    PutAll(ba, items, little, host);
    FillsCapacity(count, |ba.blocks|, ba.position, ba.baseSize);
    var _ := ba.SetPosition(start);
    ghost var s := Readable(ba);
    FlatlyAt(before, ba.bytes, start, EncodeAll(items, little), ba.size);
    TypedRoundTrip(items, little, s, start);
    if forall x :: x in items ==> Narrow(x) { AllStay(items, little, s, start, ba.baseSize); }
    KindsKnown(items);
    LastValue(items);
    r, spill := GetAll(ba, Kinds(items), little, host);
  }

  lemma {:induction false} LastValue(items: seq<Item>)
    ensures |Values(items)| == |items| && (items != [] ==> Values(items)[|items| - 1] == items[|items| - 1].value)
  {
    if items != [] { LastValue(items[1..]); }
  }

  lemma OneItem(item: Item, little: bool, at: nat, size: nat)
    requires Typed(item) && 0 < size
    ensures Values([item]) == [item.value] && EncodeAll([item], little) == Encode(item, little)
    ensures AllContained([item], little, at, size) == Contained(item, little, at, size)
  {
    assert [item][1..] == [];
    assert Values([item]) == [item.value] + Values([]);
    assert EncodeAll([item], little) == Encode(item, little) + EncodeAll([], little);
  }

  /** One byte read from the start of a longer block is followed by the rest of the block. */
  method OverrunExample() returns (r: Outcome<seq<Value>>, spill: nat)
    ensures r == Got([Num(7)]) && 0 < spill
  {
    var ba := new ByteArray(2);
    var item := Item(Fixed(1, false), Num(7));
    Limits();
    OneItem(item, true, 0, 2);
    r, spill := WriteThenRead(ba, [item], true, true);
  }

  /** An empty string whose prefix fills the only block cannot be read back. */
  method NullBlockExample() returns (r: Outcome<seq<Value>>)
    ensures r == NullBlock
  {
    var ba := new ByteArray(2);
    var item := Item(Text(F16), Str([]));
    OneItem(item, true, 0, 2);
    var spill;
    r, spill := WriteThenRead(ba, [item], true, true);
  }

  lemma FlatlyAt(a: seq<byte>, b: seq<byte>, at: nat, t: seq<byte>, size: nat)
    requires Flatly(a, b, at, t) && at + |t| <= size <= |b|
    ensures At(b[..size], at, t)
  {
  }

  lemma {:induction false} KindsKnown(items: seq<Item>)
    requires forall x :: x in items ==> Typed(x)
    ensures forall k :: k in Kinds(items) ==> Known(k)
  {
    if items != [] {
      KindsKnown(items[1..]);
      assert items[0] in items && Typed(items[0]);
      assert Kinds(items) == [items[0].kind] + Kinds(items[1..]);
    }
  }
}
