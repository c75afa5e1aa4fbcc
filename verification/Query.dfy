/** `HttpRequest::initQueryParam`: a query string read into a map with case-insensitive keys. */
module Query {
  import opened Bytes
  import Url
  import SplitJoin

  const EQUALS := '=' as int
  const AMPERSAND := '&' as int

  type Pair = (seq<byte>, seq<byte>)

  // ----- The map of parameters -----

  function Lower(c: byte): byte {
    if 'A' as int <= c <= 'Z' as int then c + 32 else c
  }

  lemma LowerUpper(i: nat)
    requires i < 26
    ensures Lower(UPPER[i] as int) == LOWER[i] as int
  {
    UpperAt(i);
    LowerAt(i);
  }

  /** Two bytes agree in lower case exactly when they are equal or one letter in its two cases. */
  lemma LowerEqual(c: byte, d: byte)
    ensures Lower(c) == Lower(d) <==> c == d || exists i :: 0 <= i < 26 && SameLetter(c, d, i)
  {
    var i := if 'A' as int <= c <= 'Z' as int then c - 'A' as int
             else if 'A' as int <= d <= 'Z' as int then d - 'A' as int else 0;
    UpperAt(i);
    LowerAt(i);
    if Lower(c) == Lower(d) && c != d { assert SameLetter(c, d, i); }
    forall k | 0 <= k < 26 && SameLetter(c, d, k)
      ensures Lower(c) == Lower(d)
    {
      UpperAt(k);
      LowerAt(k);
    }
  }

  predicate SameLetter(c: byte, d: byte, i: nat)
    requires i < 26
  {
    (UPPER[i] as int == c && LOWER[i] as int == d) || (LOWER[i] as int == c && UPPER[i] as int == d)
  }

  /** Keys are equivalent when they agree up to case, byte by byte and up to the first NUL. */
  lemma {:induction false} FoldEqual(a: seq<byte>, b: seq<byte>)
    ensures Fold(a) == Fold(b) <==> Equivalent(a, b)
  {
    if a != [] && b != [] && a[0] != 0 && b[0] != 0 {
      FoldEqual(a[1..], b[1..]);
      LowerEqual(a[0], b[0]);
      assert Fold(a)[0] == Lower(a[0]) && Fold(b)[0] == Lower(b[0]);
      assert Fold(a)[1..] == Fold(a[1..]) && Fold(b)[1..] == Fold(b[1..]);
    }
  }

  predicate Equivalent(a: seq<byte>, b: seq<byte>) {
    if a == [] || a[0] == 0 then b == [] || b[0] == 0
    else
      && b != [] && b[0] != 0 && Equivalent(a[1..], b[1..])
      && (a[0] == b[0] || exists i :: 0 <= i < 26 && SameLetter(a[0], b[0], i))
  }

  /** What `strcasecmp` on the C string sees of a key: lower case, up to the first NUL. */
  function Fold(k: seq<byte>): seq<byte> {
    if k == [] || k[0] == 0 then [] else [Lower(k[0])] + Fold(k[1..])
  }

  /** `std::map` under that order: each folded key with the pair stored for it. */
  type Params = map<seq<byte>, Pair>

  /** `insert` leaves an entry with an equivalent key alone. */
  function Insert(m: Params, p: Pair): Params {
    if Fold(p.0) in m then m else m[Fold(p.0) := p]
  }

  function InsertAll(m: Params, l: seq<Pair>): Params
    decreases l
  {
    if l == [] then m else InsertAll(Insert(m, l[0]), l[1..])
  }

  /** The first pair of the list whose key folds to `k`. */
  function Lookup(l: seq<Pair>, k: seq<byte>): Option<Pair> {
    if l == [] then None else if Fold(l[0].0) == k then Some(l[0]) else Lookup(l[1..], k)
  }

  function Get(m: Params, k: seq<byte>): Option<Pair> {
    if k in m then Some(m[k]) else None
  }

  /** Entries already there stay, and of the new pairs the first one for each further key is stored. */
  lemma {:induction false} FirstWins(m: Params, l: seq<Pair>, k: seq<byte>)
    ensures Get(InsertAll(m, l), k) == if k in m then Some(m[k]) else Lookup(l, k)
    decreases l
  {
    if l != [] { FirstWins(Insert(m, l[0]), l[1..], k); }
  }

  lemma {:induction false} InsertLast(m: Params, l: seq<Pair>, p: Pair)
    ensures InsertAll(m, l + [p]) == Insert(InsertAll(m, l), p)
    decreases l
  {
    if l == [] {
      assert (l + [p])[1..] == [];
    } else {
      assert (l + [p])[1..] == l[1..] + [p];
      InsertLast(Insert(m, l[0]), l[1..], p);
    }
  }

  // ----- The pairs of a query -----

  /** The place of the first `c`, or the length. */
  function Cut(s: seq<byte>, c: byte): (r: nat)
    ensures r <= |s| && c !in s[..r] && (r < |s| ==> s[r] == c)
  {
    if s == [] || s[0] == c then 0
    else
      var r := Cut(s[1..], c) + 1;
      assert s[..r] == [s[0]] + s[1..][..r - 1];
      r
  }

  lemma {:induction false} CutIs(s: seq<byte>, c: byte, i: nat)
    requires i <= |s| && c !in s[..i] && (i < |s| ==> s[i] == c)
    ensures Cut(s, c) == i
  {
    if i > 0 {
      assert s[..i][0] == s[0] && s[..i][1..] == s[1..][..i - 1];
      CutIs(s[1..], c, i - 1);
    }
  }

  /** A key runs to the next '=', its value from there to the next separator. */
  function Pairs(s: seq<byte>, sep: byte): seq<Pair>
    decreases |s|
  {
    var k := Cut(s, EQUALS);
    if k == |s| then []
    else
      var rest := s[k + 1..];
      var e := Cut(rest, sep);
      [(s[..k], Url.Decoded(rest[..e], true))] + if e == |rest| then [] else Pairs(rest[e + 1..], sep)
  }

  /** `k=UrlEncode(v)`. */
  function Field(p: Pair): seq<byte> {
    p.0 + [EQUALS] + Url.Encoded(p.1, true)
  }

  function Written(l: seq<Pair>, sep: byte): seq<byte> {
    if l == [] then [] else if |l| == 1 then Field(l[0]) else Field(l[0]) + [sep] + Written(l[1..], sep)
  }

  /** A separator that cannot come from an encoded value. */
  predicate Separates(sep: byte) {
    !Url.Unreserved(sep) && sep != Url.PERCENT && sep != Url.PLUS
  }

  /** A key runs to its '=', its value from there to the next separator, and the next pair starts behind. */
  lemma PairRead(k: seq<byte>, v: seq<byte>, sep: byte, more: bool, rest: seq<byte>)
    requires EQUALS !in k && sep !in v
    ensures Pairs(if more then k + [EQUALS] + v + [sep] + rest else k + [EQUALS] + v, sep)
         == [(k, Url.Decoded(v, true))] + if more then Pairs(rest, sep) else []
  {
    hide Url.Decoded, Pairs;
    var tail := if more then v + [sep] + rest else v;
    var s := k + [EQUALS] + tail;
    assert s == if more then k + [EQUALS] + v + [sep] + rest else k + [EQUALS] + v;
    assert s[..|k|] == k && s[|k| + 1..] == tail;
    CutIs(s, EQUALS, |k|);
    assert tail[..|v|] == v;
    CutIs(tail, sep, |v|);
    if more { assert tail[|v| + 1..] == rest; }
    PairsUnfold(s, sep);
  }

  lemma PairsUnfold(s: seq<byte>, sep: byte)
    requires Cut(s, EQUALS) < |s|
    ensures var k := Cut(s, EQUALS);
            var rest := s[k + 1..];
            var e := Cut(rest, sep);
            Pairs(s, sep) ==
            [(s[..k], Url.Decoded(rest[..e], true))] + if e == |rest| then [] else Pairs(rest[e + 1..], sep)
  {
    hide Cut, Url.Decoded;
  }

  lemma FieldRead(p: Pair, sep: byte, more: bool, rest: seq<byte>)
    requires EQUALS !in p.0 && Separates(sep)
    ensures Pairs(if more then Field(p) + [sep] + rest else Field(p), sep)
         == [p] + if more then Pairs(rest, sep) else []
  {
    hide Pairs, Url.Encoded, Url.Decoded;
    Url.EncodedAvoids(p.1, true, sep);
    Url.RoundTrip(p.1, true, true);
    PairRead(p.0, Url.Encoded(p.1, true), sep, more, rest);
  }

  lemma {:induction false} WrittenRead(l: seq<Pair>, sep: byte)
    requires Separates(sep) && forall i :: 0 <= i < |l| ==> EQUALS !in l[i].0
    ensures Pairs(Written(l, sep), sep) == l
  {
    hide Pairs, Field, Separates;
    if l == [] {
      NoMore([], 0, sep, []);
    } else if |l| == 1 {
      FieldRead(l[0], sep, false, []);
    } else {
      FieldRead(l[0], sep, true, Written(l[1..], sep));
      WrittenRead(l[1..], sep);
      assert l == [l[0]] + l[1..];
    }
  }

  lemma {:induction false} KeysAvoid(s: seq<byte>, sep: byte, i: nat)
    requires i < |Pairs(s, sep)|
    ensures EQUALS !in Pairs(s, sep)[i].0
    decreases |s|
  {
    if i > 0 {
      var rest := s[Cut(s, EQUALS) + 1..];
      KeysAvoid(rest[Cut(rest, sep) + 1..], sep, i - 1);
    }
  }

  /** Parsing the written pairs yields exactly those pairs if and only if no key holds a '='. */
  lemma QueryRoundTrip(l: seq<Pair>)
    ensures Pairs(Written(l, AMPERSAND), AMPERSAND) == l <==> forall i :: 0 <= i < |l| ==> EQUALS !in l[i].0
  {
    if forall i :: 0 <= i < |l| ==> EQUALS !in l[i].0 {
      WrittenRead(l, AMPERSAND);
    } else {
      var i :| 0 <= i < |l| && EQUALS in l[i].0;
      var r := Pairs(Written(l, AMPERSAND), AMPERSAND);
      if i < |r| { KeysAvoid(Written(l, AMPERSAND), AMPERSAND, i); }
    }
  }

  /** In the parameters parsed from the written pairs, a key finds the first pair equivalent to it. */
  lemma WrittenLookup(l: seq<Pair>, key: seq<byte>)
    requires forall i :: 0 <= i < |l| ==> EQUALS !in l[i].0
    ensures Get(InsertAll(map[], Pairs(Written(l, AMPERSAND), AMPERSAND)), Fold(key)) == Lookup(l, Fold(key))
  {
    QueryRoundTrip(l);
    FirstWins(map[], l, Fold(key));
  }

  // ----- The parser -----

  class HttpRequest {
    var query: seq<byte>
    var params: Params
    /** Bit 0 of `m_parserParamFlag`. */
    var queryParsed: bool

    constructor (query: seq<byte>)
      ensures this.query == query && params == map[] && !queryParsed
    {
      this.query, params, queryParsed := query, map[], false;
    }

    /** `initQueryParam`: only the first call parses. */
    method InitQueryParam()
      modifies `params, `queryParsed
      ensures queryParsed
      ensures params == if old(queryParsed) then old(params) else InsertAll(old(params), Pairs(query, AMPERSAND))
    {
      if queryParsed { return; }
      params := ParseParam(query, params, AMPERSAND);
      queryParsed := true;
    }
  }

  /** The `PARSE_PARAM` loop for a separator other than '='. */
  method ParseParam(str: seq<byte>, m: Params, sep: byte) returns (r: Params)
    requires sep != EQUALS
    ensures r == InsertAll(m, Pairs(str, sep))
  {
    hide Pairs, InsertAll;
    r := m;
    ghost var done: seq<Pair> := [];
    StartOf(str, m, sep);
    var pos := 0;
    while true
      invariant 0 <= pos <= |str| && r == InsertAll(m, done) && done + Pairs(str[pos..], sep) == Pairs(str, sep)
      decreases |str| - pos
    {
      var last := pos;
      pos := SplitJoin.FieldEnd(str, pos, EQUALS);
      if pos == |str| {
        NoMore(str, last, sep, done);
        return;
      }
      var key := pos;
      pos := SplitJoin.FieldEnd(str, pos, sep);
      var value := Url.UrlDecode(str[key + 1..pos], true);
      NextPair(str, last, key, pos, sep, done);
      InsertLast(m, done, (str[last..key], value));
      r := Insert(r, (str[last..key], value));
      done := done + [(str[last..key], value)];
      if pos == |str| {
        assert done + [] == done;
        return;
      }
      pos := pos + 1;
    }
  }

  lemma StartOf(s: seq<byte>, m: Params, sep: byte)
    ensures InsertAll(m, []) == m && [] + Pairs(s[0..], sep) == Pairs(s, sep)
  {
    assert s[0..] == s;
  }

  lemma NoMore(s: seq<byte>, last: nat, sep: byte, done: seq<Pair>)
    requires last <= |s| && EQUALS !in s[last..]
    ensures done + Pairs(s[last..], sep) == done
  {
    var t := s[last..];
    assert t[..|t|] == t;
    CutIs(t, EQUALS, |t|);
  }

  lemma NextPair(s: seq<byte>, last: nat, key: nat, pos: nat, sep: byte, done: seq<Pair>)
    requires last <= key < pos <= |s| && EQUALS !in s[last..key] && s[key] == EQUALS
    requires sep !in s[key..pos] && (pos < |s| ==> s[pos] == sep)
    ensures var p := (s[last..key], Url.Decoded(s[key + 1..pos], true));
            done + Pairs(s[last..], sep) == done + [p] + if pos == |s| then [] else Pairs(s[pos + 1..], sep)
  {
    hide Url.Decoded, Pairs;
    var k, v := s[last..key], s[key + 1..pos];
    assert v == s[key..pos][1..];
    if pos < |s| {
      assert s[last..] == k + [EQUALS] + v + [sep] + s[pos + 1..];
    } else {
      assert s[last..] == k + [EQUALS] + v;
    }
    var rest := if pos < |s| then s[pos + 1..] else [];
    PairRead(k, v, sep, pos < |s|, rest);
    Regroup(done, [(k, Url.Decoded(v, true))], if pos < |s| then Pairs(rest, sep) else []);
  }
}
