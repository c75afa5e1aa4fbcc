/** Base64 after section 5.2 of RFC 1341. Bit fields are written as quotients and remainders. */
module Base64 {
  import opened Bytes
  import opened BStrings

  const PAD := '=' as int
  const B64_PAD := -2
  const B64_ERR := -1

  type sextet = x: int | 0 <= x < 64

  /** `b64ETable`. */
  function Letter(v: sextet): (c: byte)
    ensures Symbol(c) == v
  {
    if v < 26 then 'A' as int + v
    else if v < 52 then 'a' as int + v - 26
    else if v < 62 then '0' as int + v - 52
    else if v == 62 then '+' as int
    else '/' as int
  }

  /** `base64DecodeSymbol`. */
  function Symbol(c: byte): (v: int)
    ensures v < 64 && (v == B64_PAD <==> c == PAD) && (v < 0 ==> v == B64_PAD || v == B64_ERR)
  {
    if 'A' as int <= c <= 'Z' as int then c - 'A' as int
    else if 'a' as int <= c <= 'z' as int then 26 + c - 'a' as int
    else if '0' as int <= c <= '9' as int then 52 + c - '0' as int
    else if c == '+' as int then 62
    else if c == '/' as int then 63
    else if c == PAD then B64_PAD
    else B64_ERR
  }

  /** The alphabet in order. */
  const ALPHABET := UPPER + LOWER + DIGITS + "+/"

  lemma LetterAt(v: sextet)
    ensures |ALPHABET| == 64 && ALPHABET[v] as int == Letter(v)
  {
    UpperAt(if v < 26 then v else 0);
    LowerAt(if 26 <= v < 52 then v - 26 else 0);
    DigitAt(if 52 <= v < 62 then v - 52 else 0);
  }

  /** A character stands for its place in the alphabet, and outside it and the pad for an error. */
  lemma SymbolIs(c: byte)
    ensures |ALPHABET| == 64 && forall v :: 0 <= v < 64 ==> (Symbol(c) == v <==> ALPHABET[v] as int == c)
    ensures Symbol(c) == B64_ERR <==> c != PAD && forall v :: 0 <= v < 64 ==> ALPHABET[v] as int != c
  {
    LetterAt(if Symbol(c) >= 0 then Symbol(c) else 0);
    LetterBack(c);
    forall v | 0 <= v < 64
      ensures Symbol(c) == v <==> ALPHABET[v] as int == c
    {
      LetterAt(v);
    }
  }

  lemma LetterBack(c: byte)
    ensures Symbol(c) >= 0 ==> Letter(Symbol(c)) == c
  {
  }

  /** Three bytes as four letters. */
  function Quad(x: byte, y: byte, z: byte): (r: seq<sextet>)
    ensures |r| == 4
  {
    [x / 4, x % 4 * 16 + y / 16, y % 16 * 4 + z / 64, z % 64]
  }

  function GroupOf(x: byte, y: byte, z: byte): (r: seq<byte>)
    ensures |r| == 4
  {
    var q := Quad(x, y, z);
    [Letter(q[0]), Letter(q[1]), Letter(q[2]), Letter(q[3])]
  }

  /** The last one or two bytes, padded. */
  function TailOf(s: seq<byte>): (r: seq<byte>)
    requires |s| < 3
  {
    if |s| == 2 then
      var q := Quad(s[0], s[1], 0);
      [Letter(q[0]), Letter(q[1]), Letter(q[2]), PAD]
    else if |s| == 1 then
      var q := Quad(s[0], 0, 0);
      [Letter(q[0]), Letter(q[1]), PAD, PAD]
    else []
  }

  function Encoded(s: seq<byte>): seq<byte> {
    if |s| >= 3 then GroupOf(s[0], s[1], s[2]) + Encoded(s[3..]) else TailOf(s)
  }

  // ----- What an encoding looks like -----

  /** The letters of a group spell in base 64 what its bytes spell in base 256. */
  lemma GroupIs(x: byte, y: byte, z: byte)
    ensures var g := GroupOf(x, y, z);
            && (forall k :: 0 <= k < 4 ==> 0 <= Symbol(g[k]))
            && 64 * (64 * (64 * Symbol(g[0]) + Symbol(g[1])) + Symbol(g[2])) + Symbol(g[3]) ==
               256 * (256 * (x as int) + y) + z
  {
    hide Letter, Symbol;
  }

  /** The last one or two bytes are filled up with zero bits, and the missing letters with '='. */
  lemma TailIs(s: seq<byte>)
    requires 0 < |s| < 3
    ensures var t := TailOf(s);
            && |t| == 4 && 0 <= Symbol(t[0]) && 0 <= Symbol(t[1]) && t[3] == PAD
            && if |s| == 1 then t[2] == PAD && 64 * Symbol(t[0]) + Symbol(t[1]) == 16 * (s[0] as int)
               else 0 <= Symbol(t[2]) && 64 * (64 * Symbol(t[0]) + Symbol(t[1])) + Symbol(t[2]) ==
                                         4 * (256 * (s[0] as int) + s[1])
  {
    hide Letter, Symbol;
  }

  /** Group by group: four characters for three bytes, and four for what is left at the end. */
  lemma {:induction false} EncodedPlaces(s: seq<byte>, i: nat)
    requires 3 * i < |s|
    ensures |Encoded(s)| == (|s| + 2) / 3 * 4 && 4 * i + 4 <= |Encoded(s)|
    ensures Encoded(s)[4 * i..4 * i + 4] ==
            if 3 * i + 3 <= |s| then GroupOf(s[3 * i], s[3 * i + 1], s[3 * i + 2]) else TailOf(s[3 * i..])
  {
    hide GroupOf, TailOf;
    EncodedLength(s);
    if i == 0 {
      if |s| < 3 { TailIs(s); }
      assert s[0..] == s;
    } else {
      EncodedPlaces(s[3..], i - 1);
      assert s[3..][3 * (i - 1)..] == s[3 * i..];
      assert Encoded(s)[4 * i..4 * i + 4] == Encoded(s[3..])[4 * (i - 1)..4 * (i - 1) + 4];
    }
  }

  lemma {:induction false} EncodedLength(s: seq<byte>)
    ensures |Encoded(s)| == (|s| + 2) / 3 * 4
  {
    hide GroupOf, Quad, Letter;
    if |s| >= 3 { EncodedLength(s[3..]); }
  }

  // ----- What a text decodes to -----

  /** The values of the letters before the first '='; all other characters there are ignored. */
  function Letters(t: seq<byte>): seq<sextet> {
    if t == [] || t[0] == PAD then []
    else if Symbol(t[0]) < 0 then Letters(t[1..])
    else [Symbol(t[0])] + Letters(t[1..])
  }

  datatype Ending = NoPad | OnePad | TwoPads

  /** How the letters end: with the text, with a lone '=' or with two adjacent ones. */
  function EndingOf(t: seq<byte>): Ending {
    if t == [] then NoPad
    else if t[0] == PAD then if |t| > 1 && t[1] == PAD then TwoPads else OnePad
    else EndingOf(t[1..])
  }

  /** The bytes of a letter sequence and whether its end is well formed. */
  function Assembled(v: seq<sextet>, e: Ending): (seq<byte>, bool) {
    if |v| >= 4 then
      var rest := Assembled(v[4..], e);
      ([First(v[0], v[1]), Second(v[1], v[2]), Third(v[2], v[3])] + rest.0, rest.1)
    else if |v| == 3 && e != NoPad then ([First(v[0], v[1]), Second(v[1], v[2])], true)
    else if |v| == 2 && e == TwoPads then ([First(v[0], v[1])], true)
    else ([], |v| == 0 && e == NoPad)
  }

  /** How many letters before which end are well formed: whole groups to the end of the text, two more
      before two pads and three more before a pad. */
  predicate Ends(n: nat, e: Ending) {
    if n % 4 == 0 then e == NoPad else if n % 4 == 2 then e == TwoPads else n % 4 == 3 && e != NoPad
  }

  /** Whole groups give three bytes each, and a well formed end one byte less than its letters. */
  lemma {:induction false} AssembledEnds(v: seq<sextet>, e: Ending)
    ensures Assembled(v, e).1 == Ends(|v|, e)
    ensures |Assembled(v, e).0| == |v| / 4 * 3 + if Ends(|v|, e) && |v| % 4 != 0 then |v| % 4 - 1 else 0
  {
    hide First, Second, Third;
    if |v| >= 4 {
      AssembledEnds(v[4..], e);
      FourLess(|v|);
    }
  }

  lemma FourLess(n: nat)
    requires n >= 4
    ensures (n - 4) % 4 == n % 4 && (n - 4) / 4 * 3 + 3 == n / 4 * 3
  {
  }

  /** The three bytes of a group spell in base 256 what its letters spell in base 64. */
  lemma {:induction false} AssembledGroup(v: seq<sextet>, e: Ending, k: nat)
    requires 4 * k + 4 <= |v|
    ensures var b := Assembled(v, e).0;
            && 3 * k + 3 <= |b|
            && 256 * (256 * (b[3 * k] as int) + b[3 * k + 1]) + b[3 * k + 2] ==
               64 * (64 * (64 * (v[4 * k] as int) + v[4 * k + 1]) + v[4 * k + 2]) + v[4 * k + 3]
  {
    hide First, Second, Third;
    if k == 0 {
      GroupSpells(v[0], v[1], v[2], v[3]);
    } else {
      AssembledGroup(v[4..], e, k - 1);
    }
  }

  /** The bytes at the end spell what the last letters do, without the bits that fill up the last one. */
  lemma {:induction false} AssembledTail(v: seq<sextet>, e: Ending)
    requires Assembled(v, e).1 && |v| % 4 != 0
    ensures |v| % 4 == 2 ==> EndsInOne(v, Assembled(v, e).0)
    ensures |v| % 4 == 3 ==> EndsInTwo(v, Assembled(v, e).0)
  {
    hide First, Second, Third;
    if |v| >= 4 {
      AssembledTail(v[4..], e);
      assert Assembled(v, e).0[3..] == Assembled(v[4..], e).0;
    } else {
      TailSpells(v[0], v[1], if |v| == 3 then v[2] else 0);
    }
  }

  ghost predicate EndsInOne(v: seq<sextet>, b: seq<byte>) {
    && 2 <= |v| && 1 <= |b|
    && b[|b| - 1] == (64 * (v[|v| - 2] as int) + v[|v| - 1]) / 16
  }

  ghost predicate EndsInTwo(v: seq<sextet>, b: seq<byte>) {
    && 3 <= |v| && 2 <= |b|
    && 256 * (b[|b| - 2] as int) + b[|b| - 1] == (64 * (64 * (v[|v| - 3] as int) + v[|v| - 2]) + v[|v| - 1]) / 4
  }

  lemma TailSpells(a: sextet, b: sextet, c: sextet)
    ensures First(a, b) == (64 * (a as int) + b) / 16
    ensures 256 * (First(a, b) as int) + Second(b, c) == (64 * (64 * (a as int) + b) + c) / 4
  {
  }

  lemma GroupSpells(a: sextet, b: sextet, c: sextet, d: sextet)
    ensures 256 * (256 * (First(a, b) as int) + Second(b, c)) + Third(c, d) ==
            64 * (64 * (64 * (a as int) + b) + c) + d
  {
  }

  function First(a: sextet, b: sextet): byte { a * 4 + b / 16 }

  function Second(b: sextet, c: sextet): byte { b % 16 * 16 + c / 4 }

  function Third(c: sextet, d: sextet): byte { c % 4 * 64 + d }

  function Decoded(t: seq<byte>): (seq<byte>, bool) {
    Assembled(Letters(t), EndingOf(t))
  }

  /** Decoding an encoding gives every byte string back, all three tail lengths included. */
  lemma {:induction false} RoundTrip(s: seq<byte>)
    ensures Decoded(Encoded(s)) == (s, true)
  {
    hide Letter, Quad;
    if |s| >= 3 {
      RoundTrip(s[3..]);
      GroupBack(s, Encoded(s[3..]));
    } else if |s| == 2 {
      assert s == [s[0], s[1]];
      PairBack(s[0], s[1]);
    } else if |s| == 1 {
      assert s == [s[0]];
      SingleBack(s[0]);
    }
  }

  lemma QuadBack(x: byte, y: byte, z: byte)
    ensures var q := Quad(x, y, z); First(q[0], q[1]) == x && Second(q[1], q[2]) == y && Third(q[2], q[3]) == z
  {
  }

  lemma GroupBack(s: seq<byte>, t: seq<byte>)
    requires |s| >= 3 && Decoded(t) == (s[3..], true)
    ensures var q := Quad(s[0], s[1], s[2]);
            Decoded([Letter(q[0]), Letter(q[1]), Letter(q[2]), Letter(q[3])] + t) == (s, true)
  {
    hide Letter, Quad, First, Second, Third;
    QuadBack(s[0], s[1], s[2]);
    var q := Quad(s[0], s[1], s[2]);
    FourLetters(q[0], q[1], q[2], q[3], t);
    var v := [q[0], q[1], q[2], q[3]] + Letters(t);
    assert v[4..] == Letters(t);
    assert s == [s[0], s[1], s[2]] + s[3..];
  }

  lemma PairBack(x: byte, y: byte)
    ensures var q := Quad(x, y, 0); Decoded([Letter(q[0]), Letter(q[1]), Letter(q[2]), PAD]) == ([x, y], true)
  {
    hide Letter, Quad, First, Second, Third;
    QuadBack(x, y, 0);
    var q := Quad(x, y, 0);
    OneLetter(q[2], [PAD]);
    TwoLetters(q[0], q[1], [Letter(q[2])] + [PAD]);
    assert [Letter(q[0]), Letter(q[1]), Letter(q[2]), PAD] == [Letter(q[0]), Letter(q[1])] + ([Letter(q[2])] + [PAD]);
    assert [q[0], q[1]] + ([q[2]] + []) == [q[0], q[1], q[2]];
  }

  lemma SingleBack(x: byte)
    ensures var q := Quad(x, 0, 0); Decoded([Letter(q[0]), Letter(q[1]), PAD, PAD]) == ([x], true)
  {
    hide Letter, Quad, First, Second, Third;
    QuadBack(x, 0, 0);
    var q := Quad(x, 0, 0);
    TwoLetters(q[0], q[1], [PAD, PAD]);
    assert [Letter(q[0]), Letter(q[1]), PAD, PAD] == [Letter(q[0]), Letter(q[1])] + [PAD, PAD];
  }

  lemma OneLetter(a: sextet, t: seq<byte>)
    ensures Letters([Letter(a)] + t) == [a] + Letters(t) && EndingOf([Letter(a)] + t) == EndingOf(t)
  {
    assert ([Letter(a)] + t)[1..] == t;
  }

  lemma TwoLetters(a: sextet, b: sextet, t: seq<byte>)
    ensures Letters([Letter(a), Letter(b)] + t) == [a, b] + Letters(t)
    ensures EndingOf([Letter(a), Letter(b)] + t) == EndingOf(t)
  {
    OneLetter(b, t);
    OneLetter(a, [Letter(b)] + t);
    assert [Letter(a), Letter(b)] + t == [Letter(a)] + ([Letter(b)] + t);
  }

  lemma FourLetters(a: sextet, b: sextet, c: sextet, d: sextet, t: seq<byte>)
    ensures Letters([Letter(a), Letter(b), Letter(c), Letter(d)] + t) == [a, b, c, d] + Letters(t)
    ensures EndingOf([Letter(a), Letter(b), Letter(c), Letter(d)] + t) == EndingOf(t)
  {
    TwoLetters(c, d, t);
    TwoLetters(a, b, [Letter(c), Letter(d)] + t);
    assert [Letter(a), Letter(b), Letter(c), Letter(d)] + t == [Letter(a), Letter(b)] + ([Letter(c), Letter(d)] + t);
  }

  // ----- Characters outside the alphabet -----

  ghost predicate Junk(j: seq<byte>) {
    forall k :: 0 <= k < |j| ==> Symbol(j[k]) == B64_ERR
  }

  /** The cut between `a` and `b` lies between the first '=' and a second one adjacent to it. */
  predicate BetweenPads(a: seq<byte>, b: seq<byte>) {
    a != [] && a[|a| - 1] == PAD && PAD !in a[..|a| - 1] && b != [] && b[0] == PAD
  }

  lemma {:induction false} JunkSkipped(j: seq<byte>, b: seq<byte>)
    requires Junk(j)
    ensures Letters(j + b) == Letters(b) && EndingOf(j + b) == EndingOf(b)
  {
    if j == [] {
      assert j + b == b;
    } else {
      assert (j + b)[1..] == j[1..] + b;
      JunkSkipped(j[1..], b);
    }
  }

  lemma {:induction false} JunkInserted(a: seq<byte>, j: seq<byte>, b: seq<byte>)
    requires j != [] && Junk(j)
    ensures Letters(a + j + b) == Letters(a + b)
    ensures BetweenPads(a, b) ==> EndingOf(a + b) == TwoPads && EndingOf(a + j + b) == OnePad
    ensures BetweenPads(a, b) ==> Letters(a + b) == Letters(a)
    ensures !BetweenPads(a, b) ==> EndingOf(a + j + b) == EndingOf(a + b)
  {
    if a == [] {
      assert a + j + b == j + b && a + b == b;
      JunkSkipped(j, b);
    } else if a[0] != PAD {
      assert (a + j + b)[1..] == a[1..] + j + b && (a + b)[1..] == a[1..] + b;
      CutMoves(a, b);
      JunkInserted(a[1..], j, b);
    } else if |a| == 1 {
      assert (a + j + b)[1] == j[0];
    } else {
      assert a[0] in a[..|a| - 1];
    }
  }

  lemma CutMoves(a: seq<byte>, b: seq<byte>)
    requires a != [] && a[0] != PAD
    ensures BetweenPads(a, b) <==> BetweenPads(a[1..], b)
  {
    if |a| > 1 {
      assert a[..|a| - 1] == [a[0]] + a[1..][..|a| - 2];
    }
  }

  lemma {:induction false} PadsMatter(v: seq<sextet>)
    ensures if |v| % 4 == 2 then !Assembled(v, OnePad).1 && Assembled(v, TwoPads).1
            else Assembled(v, OnePad) == Assembled(v, TwoPads)
  {
    hide First, Second, Third;
    if |v| >= 4 { PadsMatter(v[4..]); }
  }

  /** Inserting characters outside the alphabet and '=' changes the result only between the two '='
      that end a text whose last group has two letters. */
  lemma JunkIsIgnored(a: seq<byte>, j: seq<byte>, b: seq<byte>)
    requires j != [] && Junk(j)
    ensures Decoded(a + j + b) == Decoded(a + b) <==> !(BetweenPads(a, b) && |Letters(a)| % 4 == 2)
  {
    JunkInserted(a, j, b);
    PadsMatter(Letters(a));
  }

  // ----- The loops -----

  method Put(out: BString, s: seq<byte>)
    requires out.Valid()
    modifies out, out.data
    ensures out.Valid() && (out.data == old(out.data) || fresh(out.data)) && out.Contents() == old(out.Contents()) + s
  {
    ghost var before := out.Contents();
    for k := 0 to |s|
      invariant out.Valid() && (out.data == old(out.data) || fresh(out.data)) && out.Contents() == before + s[..k]
    {
      out.AppendChar(s[k]);
    }
  }

  /** `bBase64Encode`. */
  method Encode(b: seq<byte>) returns (out: BString)
    ensures fresh(out) && out.Valid() && out.Contents() == Encoded(b)
  {
    hide Encoded;
    out := new BString([]);
    var i := 0;
    while i + 2 < |b|
      invariant 0 <= i <= |b| && out.Valid() && fresh(out) && fresh(out.data)
      invariant out.Contents() + Encoded(b[i..]) == Encoded(b)
    {
      var four := GroupOf(b[i], b[i + 1], b[i + 2]);
      NextGroup(b, i);
      Regroup(out.Contents(), four, Encoded(b[i + 3..]));
      Put(out, four);
      i := i + 3;
    }
    LastGroup(b, i);
    Put(out, TailOf(b[i..]));
  }

  lemma LastGroup(b: seq<byte>, i: nat)
    requires i <= |b| < i + 3
    ensures Encoded(b[i..]) == TailOf(b[i..])
  {
  }

  lemma NextGroup(b: seq<byte>, i: nat)
    requires i + 2 < |b|
    ensures Encoded(b[i..]) == GroupOf(b[i], b[i + 1], b[i + 2]) + Encoded(b[i + 3..])
  {
    assert b[i..][3..] == b[i + 3..];
  }

  function PadsAt(t: seq<byte>, i: nat): Ending {
    if i >= |t| then NoPad else if i + 1 < |t| && t[i + 1] == PAD then TwoPads else OnePad
  }

  /** The four inner loops of the decoder: skip to the next letter, and stop before a '=' (`B64_PAD`)
      or at the end (`B64_ERR`). */
  method NextSymbol(t: seq<byte>, at: nat) returns (v: int, i: nat)
    requires at <= |t|
    ensures at <= i <= |t| && v < 64 && (v < 0 ==> Letters(t[at..]) == [])
    ensures v >= 0 ==> at < i && Letters(t[at..]) == [v] + Letters(t[i..]) && EndingOf(t[at..]) == EndingOf(t[i..])
    ensures v < 0 ==> EndingOf(t[at..]) == PadsAt(t, i) && if v == B64_PAD then i < |t| else v == B64_ERR && i == |t|
  {
    i := at;
    v := B64_ERR;
    while i < |t| && t[i] != PAD && v < 0
      invariant at <= i <= |t| && v < 64
      invariant v < 0 ==> Letters(t[at..]) == Letters(t[i..])
      invariant v >= 0 ==> at < i && Letters(t[at..]) == [v] + Letters(t[i..])
      invariant EndingOf(t[at..]) == EndingOf(t[i..])
    {
      v := Symbol(t[i]);
      assert t[i..][1..] == t[i + 1..];
      i := i + 1;
    }
    if v < 0 { v := if i < |t| then B64_PAD else B64_ERR; }
  }

  /** `bBase64DecodeEx`. With `report` a malformed end is flagged and the whole groups are returned,
      without it nothing is. */
  method Decode(t: seq<byte>, report: bool) returns (r: Option<seq<byte>>, truncated: bool)
    ensures truncated == (report && !Decoded(t).1)
    ensures r == if report || Decoded(t).1 then Some(Decoded(t).0) else None
  {
    hide First, Second, Third, Letters, EndingOf;
    var out := new BString([]);
    var i := 0;
    assert t[0..] == t && [] + Decoded(t).0 == Decoded(t).0;
    while true
      invariant i <= |t| && out.Valid() && fresh(out) && fresh(out.data)
      invariant Decoded(t) == Behind(out.Contents(), Decoded(t[i..]))
      decreases |t| - i
    {
      ghost var start := i;
      var ok, done, group;
      i, ok, done, group := DecodeGroup(t, i);
      ghost var before := out.Contents();
      Put(out, group);
      if done {
        assert out.Contents() == before + group;
        if ok { return Some(out.Contents()), false; }
        return if report then Some(out.Contents()) else None, report;
      }
      Regroup(before, group, Decoded(t[i..]).0);
    }
  }

  function Behind(out: seq<byte>, d: (seq<byte>, bool)): (seq<byte>, bool) {
    (out + d.0, d.1)
  }

  /** One group of the decoder: the bytes it appends, and whether and how decoding ends with it. */
  method DecodeGroup(t: seq<byte>, at: nat) returns (i: nat, ok: bool, done: bool, group: seq<byte>)
    requires at <= |t|
    ensures i <= |t| && (!done ==> at < i)
    ensures Decoded(t[at..]) == if done then (group, ok) else Behind(group, Decoded(t[i..]))
  {
    hide First, Second, Third, Letters, EndingOf;
    var v0, v1, v2, v3;
    ghost var v := Letters(t[at..]);
    v0, i := NextSymbol(t, at);
    if v0 < 0 { return i, v0 == B64_ERR, true, []; }
    v1, i := NextSymbol(t, i);
    if v1 < 0 { return i, false, true, []; }
    v2, i := NextSymbol(t, i);
    if v2 < 0 {
      if v2 == B64_PAD && i + 1 < |t| && t[i + 1] == PAD { return i + 1, true, true, [First(v0, v1)]; }
      return i, false, true, [];
    }
    v3, i := NextSymbol(t, i);
    if v3 < 0 {
      if v3 == B64_PAD { return i, true, true, [First(v0, v1), Second(v1, v2)]; }
      return i, false, true, [];
    }
    assert v[4..] == Letters(t[i..]);
    return i, true, false, [First(v0, v1), Second(v1, v2), Third(v2, v3)];
  }
}
