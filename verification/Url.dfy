/** Percent-encoding after section 2.1 of RFC 3986, with a space optionally written as '+'. */
module Url {
  import opened Bytes

  const PERCENT := '%' as int
  const PLUS := '+' as int
  const SPACE := ' ' as int

  /** The entries of `uri_chars` that are 1; '=' is among them. */
  predicate Unreserved(c: byte) {
    || 'a' as int <= c <= 'z' as int || 'A' as int <= c <= 'Z' as int || '0' as int <= c <= '9' as int
    || c == '-' as int || c == '.' as int || c == '=' as int || c == '_' as int || c == '~' as int
  }

  function HexDigit(d: nat): byte
    requires d < 16
  {
    if d < 10 then '0' as int + d else 'A' as int + d - 10
  }

  /** `isxdigit`. */
  predicate IsHex(c: byte) {
    '0' as int <= c <= '9' as int || 'A' as int <= c <= 'F' as int || 'a' as int <= c <= 'f' as int
  }

  /** `xdigit_chars`. */
  function HexValue(c: byte): (v: nat)
    ensures v < 16
  {
    if '0' as int <= c <= '9' as int then c - '0' as int
    else if 'A' as int <= c <= 'F' as int then c - 'A' as int + 10
    else if 'a' as int <= c <= 'f' as int then c - 'a' as int + 10
    else 0
  }

  const HEX_UPPER := DIGITS + "ABCDEF"
  const HEX_LOWER := DIGITS + "abcdef"

  /** A character that is left as it is. */
  const PLAIN := LOWER + UPPER + DIGITS + "-.=_~"

  lemma PlainAt(i: nat)
    requires i < 67
    ensures |PLAIN| == 67 && Unreserved(PLAIN[i] as int)
  {
    LowerAt(if i < 26 then i else 0);
    UpperAt(if 26 <= i < 52 then i - 26 else 0);
    DigitAt(if 52 <= i < 62 then i - 52 else 0);
  }

  lemma UnreservedIs(c: byte)
    ensures Unreserved(c) <==> exists i :: 0 <= i < |PLAIN| && PLAIN[i] as int == c
  {
    if Unreserved(c) {
      var i := PlaceOf(c);
      assert PLAIN[i] as int == c;
    }
    forall i | 0 <= i < |PLAIN| && PLAIN[i] as int == c
      ensures Unreserved(c)
    {
      PlainAt(i);
    }
  }

  lemma PlaceOf(c: byte) returns (i: nat)
    requires Unreserved(c)
    ensures i < |PLAIN| && PLAIN[i] as int == c
  {
    PlainAt(0);
    if 'a' as int <= c <= 'z' as int {
      i := c - 'a' as int;
      LowerAt(i);
    } else if 'A' as int <= c <= 'Z' as int {
      i := c - 'A' as int + 26;
      UpperAt(i - 26);
    } else if '0' as int <= c <= '9' as int {
      i := c - '0' as int + 52;
      DigitAt(i - 52);
    } else {
      i := if c == '-' as int then 62 else if c == '.' as int then 63 else if c == '=' as int then 64
           else if c == '_' as int then 65 else 66;
    }
  }

  /** A hexadecimal digit of either case and its value. */
  predicate Spells(c: byte, v: nat) {
    v < 16 && (HEX_UPPER[v] as int == c || HEX_LOWER[v] as int == c)
  }

  lemma HexIs(c: byte, v: nat)
    ensures IsHex(c) && HexValue(c) == v <==> Spells(c, v)
    ensures v < 16 ==> HexDigit(v) == HEX_UPPER[v] as int
  {
    if v < 16 { DigitAt(if v < 10 then v else 0); }
  }

  /** An escape with digits of either case is one byte. */
  lemma EscapeRead(h: byte, i: nat, l: byte, j: nat, t: seq<byte>, plus: bool)
    requires Spells(h, i) && Spells(l, j)
    ensures Decoded([PERCENT, h, l] + t, plus) == [16 * i + j] + Decoded(t, plus)
  {
    hide HexValue, IsHex, Spells;
    HexIs(h, i);
    HexIs(l, j);
    assert ([PERCENT, h, l] + t)[3..] == t;
  }

  /** Everything else is a byte by itself: a '%' without two digits behind it, a '+' that is not read as
      a space, and every other character. */
  lemma LiteralRead(c: byte, t: seq<byte>, plus: bool)
    requires c == PERCENT ==> |t| < 2 || forall v: nat :: !Spells(t[0], v) || forall w: nat :: !Spells(t[1], w)
    ensures Decoded([c] + t, plus) == [if c == PLUS && plus then SPACE else c] + Decoded(t, plus)
  {
    assert ([c] + t)[1..] == t;
    if c == PERCENT && |t| >= 2 {
      HexIs(t[0], HexValue(t[0]));
      HexIs(t[1], HexValue(t[1]));
    }
  }

  function EncodedByte(c: byte, plus: bool): (r: seq<byte>)
    ensures r != [] && (Unreserved(c) <==> r == [c])
  {
    if Unreserved(c) then [c]
    else if c == SPACE && plus then [PLUS]
    else [PERCENT, HexDigit(c / 16), HexDigit(c % 16)]
  }

  function Encoded(s: seq<byte>, plus: bool): seq<byte> {
    if s == [] then [] else Encoded(s[..|s| - 1], plus) + EncodedByte(s[|s| - 1], plus)
  }

  /** The byte at the front of a text and how many characters spell it. */
  function Front(t: seq<byte>, plus: bool): (r: (byte, nat))
    requires t != []
    ensures 0 < r.1 <= |t|
  {
    if t[0] == PLUS && plus then (SPACE, 1)
    else if t[0] == PERCENT && |t| > 2 && IsHex(t[1]) && IsHex(t[2]) then (HexValue(t[1]) * 16 + HexValue(t[2]), 3)
    else (t[0], 1)
  }

  function Decoded(t: seq<byte>, plus: bool): seq<byte>
    decreases |t|
  {
    if t == [] then [] else var f := Front(t, plus); [f.0] + Decoded(t[f.1..], plus)
  }

  // ----- Round trip -----

  /** What a byte encoded in mode `p` becomes when it is decoded in mode `q`. */
  function Seen(c: byte, p: bool, q: bool): byte {
    if c == SPACE && p && !q then PLUS else c
  }

  lemma ByteBack(c: byte, p: bool, q: bool, t: seq<byte>)
    ensures Decoded(EncodedByte(c, p) + t, q) == [Seen(c, p, q)] + Decoded(t, q)
  {
    var e := EncodedByte(c, p) + t;
    if Unreserved(c) || (c == SPACE && p) {
      assert e[1..] == t;
    } else {
      assert e[3..] == t;
      assert HexValue(HexDigit(c / 16)) == c / 16 && HexValue(HexDigit(c % 16)) == c % 16;
    }
  }

  function AllSeen(s: seq<byte>, p: bool, q: bool): (r: seq<byte>)
    ensures |r| == |s|
  {
    seq(|s|, i requires 0 <= i < |s| => Seen(s[i], p, q))
  }

  lemma {:induction false} EncodedBack(s: seq<byte>, p: bool, q: bool, t: seq<byte>)
    ensures Decoded(Encoded(s, p) + t, q) == AllSeen(s, p, q) + Decoded(t, q)
  {
    hide Decoded, EncodedByte, Seen;
    if s == [] {
      assert Encoded(s, p) + t == t && AllSeen(s, p, q) + Decoded(t, q) == Decoded(t, q);
    } else {
      var front, c := s[..|s| - 1], s[|s| - 1];
      ByteBack(c, p, q, t);
      EncodedBack(front, p, q, EncodedByte(c, p) + t);
      Regroup(Encoded(front, p), EncodedByte(c, p), t);
      Regroup(AllSeen(front, p, q), [Seen(c, p, q)], Decoded(t, q));
      assert AllSeen(s, p, q) == AllSeen(front, p, q) + [Seen(c, p, q)];
    }
  }

  /** Decoding an encoding gives the string back, for both modes and even across them, except for a
      space that is written as '+' and read literally. */
  lemma RoundTrip(s: seq<byte>, p: bool, q: bool)
    ensures Decoded(Encoded(s, p), q) == s <==> !(p && !q && SPACE in s)
  {
    EncodedBack(s, p, q, []);
    assert Encoded(s, p) + [] == Encoded(s, p) && AllSeen(s, p, q) + [] == AllSeen(s, p, q);
    if p && !q && SPACE in s {
      var i :| 0 <= i < |s| && s[i] == SPACE;
      assert AllSeen(s, p, q)[i] != s[i];
    }
  }

  /** Reserved characters other than '%' and '+' never appear in an encoding. */
  lemma {:induction false} EncodedAvoids(s: seq<byte>, plus: bool, c: byte)
    requires !Unreserved(c) && c != PERCENT && c != PLUS
    ensures c !in Encoded(s, plus)
  {
    if s != [] { EncodedAvoids(s[..|s| - 1], plus, c); }
  }

  // ----- The loops, with their output created at the first change -----

  /** `UrlEncode`. */
  method UrlEncode(str: seq<byte>, plus: bool) returns (r: seq<byte>)
    ensures r == Encoded(str, plus)
  {
    var ss: Option<seq<byte>> := None;
    for i := 0 to |str|
      invariant Encoded(str[..i], plus) == if ss.None? then str[..i] else ss.value
    {
      EncodedNext(str, i, plus);
      hide Encoded;
      var c := str[i];
      if !Unreserved(c) {
        if ss.None? { ss := Some(str[..i]); }
        ss := Some(ss.value + if c == SPACE && plus then [PLUS] else [PERCENT, HexDigit(c / 16), HexDigit(c % 16)]);
      } else if ss.Some? {
        ss := Some(ss.value + [c]);
      }
    }
    assert str[..|str|] == str;
    r := if ss.None? then str else ss.value;
  }

  lemma EncodedNext(s: seq<byte>, i: nat, plus: bool)
    requires i < |s|
    ensures Encoded(s[..i + 1], plus) == Encoded(s[..i], plus) + EncodedByte(s[i], plus)
    ensures s[..i + 1] == s[..i] + [s[i]]
  {
    assert s[..i + 1][..i] == s[..i];
  }

  /** `UrlDecode`. */
  method UrlDecode(str: seq<byte>, plus: bool) returns (r: seq<byte>)
    ensures r == Decoded(str, plus)
  {
    hide Decoded, HexValue;
    var ss: Option<seq<byte>> := None;
    var i := 0;
    ghost var done: seq<byte> := [];
    assert str[0..] == str && [] + Decoded(str, plus) == Decoded(str, plus);
    while i < |str|
      invariant i <= |str| && done == if ss.None? then str[..i] else ss.value
      invariant done + Decoded(str[i..], plus) == Decoded(str, plus)
    {
      var c := str[i];
      DecodedAt(str, i, plus, done);
      done := done + [Front(str[i..], plus).0];
      if c == PLUS && plus {
        if ss.None? { ss := Some(str[..i]); }
        ss := Some(ss.value + [SPACE]);
      } else if c == PERCENT && i + 2 < |str| && IsHex(str[i + 1]) && IsHex(str[i + 2]) {
        if ss.None? { ss := Some(str[..i]); }
        ss := Some(ss.value + [HexValue(str[i + 1]) * 16 + HexValue(str[i + 2])]);
        i := i + 2;
      } else if ss.Some? {
        ss := Some(ss.value + [c]);
      }
      i := i + 1;
    }
    DecodedNothing(str, plus);
    r := if ss.None? then str else ss.value;
  }

  lemma DecodedNothing(s: seq<byte>, plus: bool)
    ensures Decoded(s[|s|..], plus) == []
  {
  }

  lemma DecodedAt(s: seq<byte>, i: nat, plus: bool, done: seq<byte>)
    requires i < |s|
    ensures var f := Front(s[i..], plus); done + Decoded(s[i..], plus) == done + [f.0] + Decoded(s[i + f.1..], plus)
  {
    var f := Front(s[i..], plus);
    assert s[i..][f.1..] == s[i + f.1..];
    Regroup(done, [f.0], Decoded(s[i + f.1..], plus));
  }
}
