/** The typed encodings of `ByteArray` on flat bytes: fixed-width integers in either byte order,
    base-128 varints, zigzag integers and length-prefixed strings. Floats and doubles travel as the
    unsigned integer with their bit pattern. */
module Codec {
  import opened Bytes
  import ByteArrays

  const TWO_16 := 0x1_0000
  const TWO_32 := 0x1_0000_0000
  const TWO_64 := 0x1_0000_0000_0000_0000

  /** One past the largest unsigned value of `n` octets. */
  function Limit(n: nat): (r: nat)
    ensures 0 < r && (0 < n ==> r % 256 == 0)
  {
    if n == 0 then 1 else 256 * Limit(n - 1)
  }

  lemma Limits()
    ensures Limit(1) == 256 && Limit(2) == TWO_16 && Limit(4) == TWO_32 && Limit(8) == TWO_64
  {
    assert Limit(0) == 1 && Limit(3) == 256 * Limit(2);
    assert Limit(5) == 256 * Limit(4) && Limit(6) == 256 * Limit(5) && Limit(7) == 256 * Limit(6);
  }

  // ----- Fixed-width integers -----

  /** The octets of a value, least significant first. */
  function Octets(v: nat, n: nat): (s: seq<byte>)
    ensures |s| == n
  {
    if n == 0 then [] else [v % 256] + Octets(v / 256, n - 1)
  }

  function Joined(s: seq<byte>): nat {
    if s == [] then 0 else s[0] + 256 * Joined(s[1..])
  }

  lemma {:induction false} JoinedOctets(v: nat, n: nat)
    requires v < Limit(n)
    ensures Joined(Octets(v, n)) == v
  {
    if n > 0 { JoinedOctets(v / 256, n - 1); }
  }

  lemma {:induction false} OctetsJoined(s: seq<byte>)
    ensures Joined(s) < Limit(|s|) && Octets(Joined(s), |s|) == s
  {
    if s != [] {
      OctetsJoined(s[1..]);
      var j := Joined(s[1..]);
      hide Joined, Limit;
      ByteInFront(s[0], j, Limit(|s| - 1));
    }
  }

  lemma ByteInFront(b: byte, j: nat, limit: nat)
    requires j < limit
    ensures (b + 256 * j) % 256 == b && (b + 256 * j) / 256 == j && b + 256 * j < 256 * limit
  {
  }

  /** Octet `k` has the weight `Limit(k)`. */
  lemma {:induction false} OctetAt(v: nat, n: nat, k: nat)
    requires k < n
    ensures Octets(v, n)[k] == v / Limit(k) % 256
  {
    if k == 0 {
      assert Limit(0) == 1;
    } else {
      OctetAt(v / 256, n - 1, k - 1);
      DivideTwice(v, 256, Limit(k - 1));
    }
  }

  lemma DivideTwice(v: nat, a: nat, b: nat)
    requires 0 < a && 0 < b
    ensures 0 < a * b && v / (a * b) == v / a / b
  {
    var w, low := v / a, v % a;
    assert v == w * a + low;
    Combine(v, a, b, w, low, w / b, w % b);
  }

  lemma Combine(v: nat, a: nat, b: nat, w: nat, low: nat, q: nat, r: nat)
    requires v == w * a + low && low < a && w == q * b + r && r < b
    ensures 0 < a * b && v / (a * b) == q
  {
    Regrouped(a, b, q, r);
    Below(a, b, low, r);
    ByteArrays.DivUnique(v, a * b, q, r * a + low);
  }

  lemma Regrouped(a: nat, b: nat, q: nat, r: nat)
    ensures (q * b + r) * a == q * (a * b) + r * a
  {
  }

  lemma Below(a: nat, b: nat, low: nat, r: nat)
    requires low < a && r < b
    ensures r * a + low < a * b
  {
    assert (r + 1) * a <= b * a;
  }

  function Backwards(s: seq<byte>): (r: seq<byte>)
    ensures |r| == |s|
  {
    seq(|s|, i requires 0 <= i < |s| => s[|s| - 1 - i])
  }

  lemma BackwardsTwice(s: seq<byte>)
    ensures Backwards(Backwards(s)) == s
  {
  }

  /** `byteswap`. */
  function Swapped(v: nat, n: nat): nat {
    Joined(Backwards(Octets(v, n)))
  }

  /** What `memcpy` sees of an `n`-octet integer on a machine of the given byte order. */
  function Image(v: nat, n: nat, host: bool): (s: seq<byte>)
    ensures |s| == n
  {
    if host then Octets(v, n) else Backwards(Octets(v, n))
  }

  function FromImage(s: seq<byte>, host: bool): nat {
    if host then Joined(s) else Joined(Backwards(s))
  }

  /** `writeFuintN`: swap unless the wanted order is the machine's own, then copy. */
  function StoreFixed(v: nat, n: nat, little: bool, host: bool): (s: seq<byte>)
    requires v < Limit(n)
    ensures |s| == n
  {
    Image(if little == host then v else Swapped(v, n), n, host)
  }

  /** `readFuintN`. */
  function LoadFixed(s: seq<byte>, little: bool, host: bool): nat {
    var v := FromImage(s, host);
    if little == host then v else Swapped(v, |s|)
  }

  /** The stored bytes depend on the chosen order alone, never on the machine. */
  lemma StoredOrder(v: nat, n: nat, little: bool, host: bool)
    requires v < Limit(n)
    ensures StoreFixed(v, n, little, host) == Image(v, n, little)
  {
    OctetsJoined(Backwards(Octets(v, n)));
    BackwardsTwice(Octets(v, n));
  }

  lemma LoadedOrder(s: seq<byte>, little: bool, host: bool)
    ensures LoadFixed(s, little, host) == FromImage(s, little) < Limit(|s|)
  {
    OctetsJoined(s);
    OctetsJoined(Backwards(s));
    BackwardsTwice(s);
  }

  /** Which octet stands where: the least significant one first in little-endian order and last in
      big-endian order. */
  lemma StoredAt(v: nat, n: nat, host: bool, k: nat)
    requires v < Limit(n) && k < n
    ensures StoreFixed(v, n, true, host)[k] == v / Limit(k) % 256
    ensures StoreFixed(v, n, false, host)[k] == v / Limit(n - 1 - k) % 256
  {
    StoredOrder(v, n, true, host);
    StoredOrder(v, n, false, host);
    ImageAt(v, n, true, k);
    ImageAt(v, n, false, k);
  }

  lemma ImageAt(v: nat, n: nat, little: bool, k: nat)
    requires k < n
    ensures Image(v, n, little)[k] == v / Limit(if little then k else n - 1 - k) % 256
  {
    OctetAt(v, n, if little then k else n - 1 - k);
  }

  /** The value read is the one with these octets at these places. */
  lemma LoadedAt(s: seq<byte>, host: bool, k: nat)
    requires k < |s|
    ensures LoadFixed(s, true, host) < Limit(|s|) && LoadFixed(s, true, host) / Limit(k) % 256 == s[k]
    ensures LoadFixed(s, false, host) < Limit(|s|) && LoadFixed(s, false, host) / Limit(k) % 256 == s[|s| - 1 - k]
  {
    hide Limit, LoadFixed, FromImage;
    LoadedOrder(s, true, host);
    LoadedOrder(s, false, host);
    FromImageAt(s, true, k);
    FromImageAt(s, false, k);
  }

  lemma FromImageAt(s: seq<byte>, little: bool, k: nat)
    requires k < |s|
    ensures FromImage(s, little) / Limit(k) % 256 == s[if little then k else |s| - 1 - k]
  {
    hide Limit, Joined;
    if little { JoinedAt(s, k); } else { JoinedAt(Backwards(s), k); }
  }

  lemma JoinedAt(s: seq<byte>, k: nat)
    requires k < |s|
    ensures Joined(s) / Limit(k) % 256 == s[k]
  {
    OctetsJoined(s);
    OctetAt(Joined(s), |s|, k);
  }

  /** Storing on one machine and loading on another gives the value back. */
  lemma FixedRoundTrip(v: nat, n: nat, little: bool, writer: bool, reader: bool)
    requires v < Limit(n)
    ensures LoadFixed(StoreFixed(v, n, little, writer), little, reader) == v
  {
    StoredOrder(v, n, little, writer);
    LoadedOrder(Image(v, n, little), little, reader);
    JoinedOctets(v, n);
    BackwardsTwice(Octets(v, n));
  }

  /** Two's complement. */
  function Unsigned(v: int, n: nat): (u: int) {
    if v < 0 then v + Limit(n) else v
  }

  function Signed(u: nat, n: nat): int {
    if u < Limit(n) / 2 then u else u - Limit(n)
  }

  /** A negative value is stored as its remainder, and a stored value with the top bit is negative. */
  lemma TwosComplement(v: int, u: nat, n: nat)
    requires 0 < n && -(Limit(n) / 2) <= v < Limit(n) / 2 && u < Limit(n)
    ensures 0 <= Unsigned(v, n) < Limit(n) && (Unsigned(v, n) - v == 0 || Unsigned(v, n) - v == Limit(n))
    ensures -(Limit(n) / 2) <= Signed(u, n) < Limit(n) / 2 && (u - Signed(u, n) == 0 || u - Signed(u, n) == Limit(n))
    ensures Signed(Unsigned(v, n), n) == v
  {
    var half := Limit(n) / 2;
    assert Limit(n) == 2 * half;
    hide Limit;
  }

  // ----- Varints -----

  /** Seven bits per byte, low bits first, the top bit saying that more follow. */
  function Varint(v: nat): (s: seq<byte>)
    ensures 0 < |s|
  {
    if v < 128 then [v] else [v % 128 + 128] + Varint(v / 128)
  }

  function Limit128(n: nat): (r: nat)
    ensures 0 < r
  {
    if n == 0 then 1 else 128 * Limit128(n - 1)
  }

  lemma {:induction false} VarintLength(v: nat, n: nat)
    ensures |Varint(v)| <= n + 1 <==> v < Limit128(n + 1)
  {
    if n > 0 && v >= 128 { VarintLength(v / 128, n - 1); }
    if n == 0 { assert Limit128(0) == 1; }
  }

  lemma VarintRooms()
    ensures Limit128(5) == 0x8_0000_0000 && Limit128(10) == 64 * TWO_64
  {
    assert Limit128(0) == 1 && Limit128(1) == 128 && Limit128(2) == 128 * Limit128(1);
    assert Limit128(3) == 128 * Limit128(2) && Limit128(4) == 128 * Limit128(3);
    assert Limit128(6) == 128 * Limit128(5) && Limit128(7) == 128 * Limit128(6);
    assert Limit128(8) == 128 * Limit128(7) && Limit128(9) == 128 * Limit128(8);
  }

  /** Read at most `rounds` bytes: the value they spell and the place after them, or nothing when the
      bytes run out. */
  function ScanVarint(s: seq<byte>, at: nat, rounds: nat): (r: Option<(nat, nat)>)
    ensures r.Some? ==> at <= r.value.1 <= at + rounds && (at <= |s| ==> r.value.1 <= |s|)
    decreases rounds
  {
    if rounds == 0 then Some((0, at))
    else if at >= |s| then None
    else if s[at] < 128 then Some((s[at], at + 1))
    else match ScanVarint(s, at + 1, rounds - 1)
      case None => None
      case Some(rest) => Some((s[at] - 128 + 128 * rest.0, rest.1))
  }

  /** The seven bits of weight `Limit128(k)`. */
  function Digit(v: nat, k: nat): nat { v / Limit128(k) % 128 }

  lemma DigitShifts(b: nat, x: nat, k: nat)
    requires b < 128
    ensures Digit(b + 128 * x, k) == if k == 0 then b else Digit(x, k - 1)
  {
    if k == 0 {
      assert Limit128(0) == 1;
    } else {
      OneDigitUp(b, x, k, Limit128(k - 1));
    }
  }

  lemma OneDigitUp(b: nat, x: nat, k: nat, m: nat)
    requires b < 128 && 0 < k && m == Limit128(k - 1)
    ensures Digit(b + 128 * x, k) == Digit(x, k - 1)
  {
    var v := b + 128 * x;
    assert Limit128(k) == 128 * m && v / 128 == x;
    hide Limit128;
    DivideTwice(v, 128, m);
  }

  /** Byte `k` carries seven bits of weight `Limit128(k)`, and tells whether it is the last. */
  lemma {:induction false} VarintAt(v: nat, k: nat)
    requires k < |Varint(v)|
    ensures Varint(v)[k] == Digit(v, k) + if k + 1 < |Varint(v)| then 128 else 0
  {
    if k == 0 {
      assert Limit128(0) == 1;
    } else {
      VarintAt(v / 128, k - 1);
      DivideTwice(v, 128, Limit128(k - 1));
    }
  }

  /** What is read from any bytes: it ends behind the first byte below 128 or after all the rounds, is
      nothing if the bytes run out before, and has the low seven bits of each byte in their place. */
  ghost predicate Reads(s: seq<byte>, at: nat, rounds: nat, r: Option<(nat, nat)>) {
    match r
    case None => at + rounds > |s| && forall k :: at <= k < |s| ==> s[k] >= 128
    case Some(x) =>
      && at <= x.1 <= at + rounds && (at < x.1 ==> x.1 <= |s|) && x.0 < Limit128(x.1 - at)
      && (forall k :: at <= k < x.1 - 1 ==> s[k] >= 128)
      && (x.1 == at + rounds || (at < x.1 && s[x.1 - 1] < 128))
      && (forall k :: at <= k < x.1 ==> Digit(x.0, k - at) == s[k] % 128)
  }

  lemma {:induction false} ScanReads(s: seq<byte>, at: nat, rounds: nat)
    ensures Reads(s, at, rounds, ScanVarint(s, at, rounds))
    decreases rounds
  {
    assert Limit128(0) == 1 && Limit128(1) == 128;
    if rounds > 0 && at < |s| && s[at] >= 128 {
      ScanReads(s, at + 1, rounds - 1);
      var rest := ScanVarint(s, at + 1, rounds - 1);
      if rest.Some? { DigitInFront(s, at, rounds, rest.value); }
    }
  }

  lemma DigitInFront(s: seq<byte>, at: nat, rounds: nat, rest: (nat, nat))
    requires at < |s| && s[at] >= 128 && 0 < rounds && Reads(s, at + 1, rounds - 1, Some(rest))
    ensures Reads(s, at, rounds, Some((s[at] - 128 + 128 * rest.0, rest.1)))
  {
    hide Digit;
    var v := s[at] - 128 + 128 * rest.0;
    forall k | at <= k < rest.1
      ensures Digit(v, k - at) == s[k] % 128
    {
      DigitShifts(s[at] - 128, rest.0, k - at);
    }
  }

  /** A varint that fits in the rounds is read back and left exactly at its end; of a longer one, the
      low bits come back and the rest of it stays unread. */
  lemma {:induction false} VarintRoundTrip(v: nat, s: seq<byte>, at: nat, rounds: nat)
    requires at + |Varint(v)| <= |s| && s[at..at + |Varint(v)|] == Varint(v)
    ensures ScanVarint(s, at, rounds) ==
            if |Varint(v)| <= rounds then Some((v, at + |Varint(v)|)) else Some((v % Limit128(rounds), at + rounds))
  {
    if rounds > 0 {
      hide Varint;
      VarintHead(v, s, at);
      if v >= 128 {
        VarintRoundTrip(v / 128, s, at + 1, rounds - 1);
        hide ScanVarint;
        ScanGoesOn(s, at, rounds, v % 128);
        DigitsSplit(v, Limit128(rounds - 1));
      }
    }
  }

  lemma ScanGoesOn(s: seq<byte>, at: nat, rounds: nat, low: nat)
    requires at < |s| && 0 < rounds && s[at] == low + 128
    requires ScanVarint(s, at + 1, rounds - 1).Some?
    ensures var rest := ScanVarint(s, at + 1, rounds - 1).value;
            ScanVarint(s, at, rounds) == Some((low + 128 * rest.0, rest.1))
  {
  }

  /** The first byte of a varint in a text, and the rest of it behind. */
  lemma VarintHead(v: nat, s: seq<byte>, at: nat)
    requires at + |Varint(v)| <= |s| && s[at..at + |Varint(v)|] == Varint(v)
    ensures s[at] == if v < 128 then v else v % 128 + 128
    ensures v < 128 ==> |Varint(v)| == 1
    ensures v >= 128 ==> |Varint(v)| == 1 + |Varint(v / 128)|
    ensures v >= 128 ==> s[at + 1..at + 1 + |Varint(v / 128)|] == Varint(v / 128)
  {
    var t := Varint(v);
    assert s[at] == s[at..at + |t|][0] == t[0];
    if v >= 128 {
      var rest := Varint(v / 128);
      assert t == [v % 128 + 128] + rest;
      assert s[at + 1..at + 1 + |rest|] == s[at..at + |t|][1..] == rest;
    }
  }

  lemma DigitsSplit(v: nat, m: nat)
    requires 0 < m
    ensures v % (128 * m) == v % 128 + 128 * ((v / 128) % m)
  {
    var q, r := v / 128 / m, (v / 128) % m;
    assert v / 128 == q * m + r;
    assert v == q * (128 * m) + (v % 128 + 128 * r);
    ByteArrays.DivUnique(v, 128 * m, q, v % 128 + 128 * r);
  }

  // ----- Zigzag -----

  /** `EncodeZigzag` at `n` octets, where every operation wraps. */
  function Zigzag(v: int, n: nat): (u: nat)
    ensures u < Limit(n)
  {
    (if v < 0 then -v * 2 - 1 else v * 2) % Limit(n)
  }

  /** `DecodeZigzag` at `n` octets: exclusive-or with all ones takes the complement. */
  function Unzigzag(u: nat, n: nat): int
    requires u < Limit(n)
  {
    Signed(if u % 2 == 1 then Limit(n) - 1 - u / 2 else u / 2, n)
  }

  lemma ZigzagRoundTrip(v: int, n: nat)
    requires 0 < n && -(Limit(n) / 2) <= v < Limit(n) / 2
    ensures Zigzag(v, n) == (if v < 0 then -v * 2 - 1 else v * 2) && Unzigzag(Zigzag(v, n), n) == v
  {
    hide Zigzag;
    ZigzagFits(v, n);
  }

  lemma ZigzagFits(v: int, n: nat)
    requires 0 < n && -(Limit(n) / 2) <= v < Limit(n) / 2
    ensures Zigzag(v, n) == if v < 0 then -v * 2 - 1 else v * 2
  {
    SmallRemainder(if v < 0 then -v * 2 - 1 else v * 2, Limit(n));
  }

  lemma SmallRemainder(x: nat, m: nat)
    requires x < m
    ensures x % m == x
  {
  }

  lemma UnzigzagInjective(u: nat, w: nat, n: nat)
    requires 0 < n && u < Limit(n) && w < Limit(n) && Unzigzag(u, n) == Unzigzag(w, n)
    ensures u == w
  {
  }
}
