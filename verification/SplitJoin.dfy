/** Splitting a string at a character into a list of strings, and joining such a list. */
module SplitJoin {
  import opened Bytes
  import opened BStrings

  /** The fields between the split characters, in order; there is always at least one. */
  function Split(s: seq<byte>, c: byte): (fields: seq<seq<byte>>)
    ensures 0 < |fields|
  {
    if s == [] then [[]]
    else
      var rest := Split(s[1..], c);
      if s[0] == c then [[]] + rest else [[s[0]] + rest[0]] + rest[1..]
  }

  /** The entries in order with the separator between neighbours. */
  function Join(l: seq<seq<byte>>, sep: seq<byte>): seq<byte> {
    if l == [] then []
    else if |l| == 1 then l[0]
    else Join(l[..|l| - 1], sep) + sep + l[|l| - 1]
  }

  // ----- The two are inverse -----

  lemma {:induction false} JoinFirst(l: seq<seq<byte>>, sep: seq<byte>)
    requires 1 < |l|
    ensures Join(l, sep) == l[0] + sep + Join(l[1..], sep)
  {
    var front, rest := l[..|l| - 1], l[1..];
    if |l| == 2 {
      assert Join(front, sep) == l[0] && Join(rest, sep) == l[1];
    } else {
      JoinFirst(front, sep);
      assert front[1..] == rest[..|rest| - 1];
      var middle, last := Join(front[1..], sep), l[|l| - 1];
      assert l[0] + sep + middle + sep + last == l[0] + sep + (middle + sep + last);
    }
  }

  /** Joining undoes splitting, for every string and character. */
  lemma {:induction false} JoinSplit(s: seq<byte>, c: byte)
    ensures Join(Split(s, c), [c]) == s
  {
    if s != [] {
      JoinSplit(s[1..], c);
      var rest := Split(s[1..], c);
      if s[0] == c {
        JoinFirst([[]] + rest, [c]);
        assert ([[]] + rest)[1..] == rest;
      } else {
        JoinLonger(s[0], rest, [c]);
      }
    }
  }

  lemma JoinLonger(x: byte, l: seq<seq<byte>>, sep: seq<byte>)
    requires l != []
    ensures Join([[x] + l[0]] + l[1..], sep) == [x] + Join(l, sep)
  {
    var all := [[x] + l[0]] + l[1..];
    if |l| > 1 {
      JoinFirst(all, sep);
      JoinFirst(l, sep);
      assert all[1..] == l[1..];
      assert [x] + l[0] + sep + Join(l[1..], sep) == [x] + (l[0] + sep + Join(l[1..], sep));
    }
  }

  ghost predicate Avoid(l: seq<seq<byte>>, c: byte) {
    forall i :: 0 <= i < |l| ==> c !in l[i]
  }

  lemma {:induction false} FieldsAvoid(s: seq<byte>, c: byte)
    ensures Avoid(Split(s, c), c)
  {
    if s != [] {
      FieldsAvoid(s[1..], c);
    }
  }

  /** A stretch without the split character is one field; the character behind it starts the next. */
  lemma {:induction false} SplitField(a: seq<byte>, rest: seq<byte>, c: byte)
    requires c !in a
    ensures Split(a, c) == [a]
    ensures Split(a + [c] + rest, c) == [a] + Split(rest, c)
  {
    var s := a + [c] + rest;
    if a == [] {
      assert s[1..] == rest;
    } else {
      assert a == [a[0]] + a[1..];
      SplitField(a[1..], rest, c);
      assert s[1..] == a[1..] + [c] + rest;
    }
  }

  /** Splitting undoes joining exactly for the non-empty lists whose entries avoid the character. */
  lemma SplitJoin(l: seq<seq<byte>>, c: byte)
    ensures Split(Join(l, [c]), c) == l <==> l != [] && Avoid(l, c)
  {
    if l != [] && Avoid(l, c) {
      SplitJoined(l, c);
    } else {
      FieldsAvoid(Join(l, [c]), c);
    }
  }

  lemma {:induction false} SplitJoined(l: seq<seq<byte>>, c: byte)
    requires l != [] && Avoid(l, c)
    ensures Split(Join(l, [c]), c) == l
  {
    if |l| == 1 {
      SplitField(l[0], [], c);
    } else {
      JoinFirst(l, [c]);
      SplitField(l[0], Join(l[1..], [c]), c);
      SplitJoined(l[1..], c);
    }
  }

  // ----- The loops -----

  /** Double the size at least once, until the quantity fits. */
  method Doubled(size: nat, qty: nat) returns (mlen: nat)
    requires 0 < size
    ensures size < mlen && qty < mlen
  {
    mlen := size * 2;
    while qty >= mlen
      invariant size < mlen
    {
      mlen := mlen + mlen;
    }
  }

  /** `bstrList`: an entry array that doubles. */
  class BStrList {
    var entry: array<seq<byte>>
    var qty: nat

    ghost predicate Valid()
      reads this
    {
      qty <= entry.Length && 0 < entry.Length
    }

    function Contents(): seq<seq<byte>>
      requires Valid()
      reads this, entry
    {
      entry[..qty]
    }

    constructor ()
      ensures Valid() && Contents() == [] && fresh(entry)
    {
      entry := new seq<byte>[4];
      qty := 0;
    }

    /** `bscb`: append a copy of `len` bytes of `b` from `ofs` on. */
    method Collect(b: seq<byte>, ofs: nat, len: nat)
      requires Valid() && ofs + len <= |b|
      modifies this, entry
      ensures Valid() && Contents() == old(Contents()) + [b[ofs..ofs + len]]
      ensures entry == old(entry) || fresh(entry)
    {
      if qty >= entry.Length {
        var mlen := Doubled(entry.Length, qty);
        var tbl := new seq<byte>[mlen];
        forall k | 0 <= k < qty {
          tbl[k] := entry[k];
        }
        entry := tbl;
        assert Contents() == old(Contents());
      }
      entry[qty] := b[ofs..ofs + len];
      qty := qty + 1;
    }
  }

  /** The fields from `p` on; past the end there is none. */
  function SplitFrom(s: seq<byte>, p: nat, c: byte): seq<seq<byte>> {
    if p <= |s| then Split(s[p..], c) else []
  }

  lemma NothingLeft(s: seq<byte>, c: byte)
    ensures SplitFrom(s, |s| + 1, c) == []
  {
  }

  /** `bsplitcb` with `bscb` as the callback: the fields from `pos` on are appended to the list. */
  method SplitInto(str: seq<byte>, c: byte, pos: int, list: BStrList) returns (code: int)
    requires list.Valid()
    modifies list, list.entry
    ensures list.Valid()
    ensures code == if 0 <= pos <= |str| then BSTR_OK else BSTR_ERR
    ensures list.Contents() == old(list.Contents()) + if 0 <= pos then SplitFrom(str, pos, c) else []
  {
    if pos < 0 || pos > |str| { return BSTR_ERR; }
    hide SplitFrom, BStrList.Contents;
    ghost var before := list.Contents();
    var p := pos;
    while p <= |str|
      invariant pos <= p <= |str| + 1 && list.Valid() && (list.entry == old(list.entry) || fresh(list.entry))
      invariant list.Contents() + SplitFrom(str, p, c) == before + SplitFrom(str, pos, c)
    {
      p := SplitNext(str, c, p, list);
    }
    assert SplitFrom(str, p, c) == [] by { NothingLeft(str, c); }
    code := BSTR_OK;
  }

  /** One field: the search for its end and the callback. */
  method SplitNext(str: seq<byte>, c: byte, p: nat, list: BStrList) returns (p': nat)
    requires list.Valid() && p <= |str|
    modifies list, list.entry
    ensures list.Valid() && (list.entry == old(list.entry) || fresh(list.entry)) && p < p' <= |str| + 1
    ensures list.Contents() + SplitFrom(str, p', c) == old(list.Contents()) + SplitFrom(str, p, c)
  {
    hide SplitFrom;
    var i := FieldEnd(str, p, c);
    FieldAt(str, p, i, c);
    Regroup(list.Contents(), [str[p..i]], SplitFrom(str, i + 1, c));
    list.Collect(str, p, i - p);
    p' := i + 1;
  }

  /** The next split character from `p` on, or the end. */
  method FieldEnd(str: seq<byte>, p: nat, c: byte) returns (i: nat)
    requires p <= |str|
    ensures p <= i <= |str| && c !in str[p..i] && (i < |str| ==> str[i] == c)
  {
    i := p;
    while i < |str| && str[i] != c
      invariant p <= i <= |str| && c !in str[p..i]
    {
      i := i + 1;
    }
  }

  lemma FieldAt(s: seq<byte>, p: nat, i: nat, c: byte)
    requires p <= i <= |s| && c !in s[p..i] && (i < |s| ==> s[i] == c)
    ensures SplitFrom(s, p, c) == [s[p..i]] + SplitFrom(s, i + 1, c)
  {
    if i < |s| {
      assert s[p..] == s[p..i] + [c] + s[i + 1..];
      SplitField(s[p..i], s[i + 1..], c);
    } else {
      assert s[p..] == s[p..i];
      SplitField(s[p..i], [], c);
    }
  }

  /** `bsplit`. */
  method BSplit(str: seq<byte>, c: byte) returns (list: BStrList)
    ensures fresh(list) && list.Valid() && list.Contents() == Split(str, c)
  {
    list := new BStrList();
    var _ := SplitInto(str, c, 0, list);
    assert str[0..] == str;
  }

  /** The length that the first loop of `bjoin` adds up. */
  function Sum(l: seq<seq<byte>>): nat {
    if l == [] then 0 else Sum(l[..|l| - 1]) + |l[|l| - 1]|
  }

  lemma {:induction false} JoinLength(l: seq<seq<byte>>, sep: seq<byte>)
    requires l != []
    ensures |Join(l, sep)| == Sum(l) + (|l| - 1) * |sep|
  {
    if |l| == 1 {
      assert Sum(l[..0]) == 0;
    } else {
      JoinLength(l[..|l| - 1], sep);
      assert (|l| - 2) * |sep| + |sep| == (|l| - 1) * |sep|;
    }
  }

  /** Each entry stands behind those before it and as many separators, the last of them directly before. */
  lemma {:induction false} JoinPlaces(l: seq<seq<byte>>, sep: seq<byte>, i: nat)
    requires i < |l|
    ensures PlacedAt(Join(l, sep), l[i], sep, Sum(l[..i]) + i * |sep|, i)
  {
    if |l| > 1 {
      var front, last := l[..|l| - 1], l[|l| - 1];
      assert front[..i] == l[..i] || i == |front|;
      JoinLength(front, sep);
      hide Join;
      if i == |front| {
        assert (i - 1) * |sep| + |sep| == i * |sep|;
        PlacedLast(Join(front, sep), last, sep, i);
      } else {
        JoinPlaces(front, sep, i);
        PlacedLonger(Join(front, sep), l[i], sep, Sum(l[..i]) + i * |sep|, i, last);
      }
      JoinUnfold(l, sep);
    } else {
      assert Sum(l[..0]) == 0;
    }
  }

  ghost predicate PlacedAt(t: seq<byte>, e: seq<byte>, sep: seq<byte>, at: nat, i: nat) {
    at + |e| <= |t| && t[at..at + |e|] == e && (i > 0 ==> |sep| <= at && t[at - |sep|..at] == sep)
  }

  lemma JoinUnfold(l: seq<seq<byte>>, sep: seq<byte>)
    requires |l| > 1
    ensures Join(l, sep) == Join(l[..|l| - 1], sep) + sep + l[|l| - 1]
  {
  }

  lemma PlacedLast(t: seq<byte>, e: seq<byte>, sep: seq<byte>, i: nat)
    ensures PlacedAt(t + sep + e, e, sep, |t| + |sep|, i)
  {
  }

  lemma PlacedLonger(t: seq<byte>, e: seq<byte>, sep: seq<byte>, at: nat, i: nat, more: seq<byte>)
    requires PlacedAt(t, e, sep, at, i)
    ensures PlacedAt(t + sep + more, e, sep, at, i)
  {
    var u := t + sep + more;
    assert u[at..at + |e|] == t[at..at + |e|];
    if i > 0 { assert u[at - |sep|..at] == t[at - |sep|..at]; }
  }

  lemma {:induction false} JoinGrows(l: seq<seq<byte>>, sep: seq<byte>, i: nat)
    requires i <= |l|
    ensures |Join(l[..i], sep)| <= |Join(l, sep)|
  {
    if i == |l| {
      assert l[..i] == l;
    } else if |l| > 1 {
      JoinGrows(l[..|l| - 1], sep, i);
      assert l[..|l| - 1][..i] == l[..i];
    }
  }

  /** The room `bjoin` asks for: the entries, the separators between them and the terminator. */
  function Room(l: seq<seq<byte>>, sep: seq<byte>): int {
    1 + Sum(l) + (|l| - 1) * |sep|
  }

  /** It is the right room exactly unless an empty list is joined with a separator; then a one-byte
      separator leaves no room at all, and a longer one asks for a negative size. */
  lemma RoomFits(l: seq<seq<byte>>, sep: seq<byte>)
    ensures Room(l, sep) == |Join(l, sep)| + 1 <==> l != [] || sep == []
    ensures Room(l, sep) == 0 <==> l == [] && |sep| == 1
    ensures Room(l, sep) < 0 <==> l == [] && |sep| > 1
  {
    if l != [] { JoinLength(l, sep); }
  }

  /** An empty list and a one-byte separator. */
  lemma NoRoom(c: byte)
    ensures Room([], [c]) == 0 && |Join([], [c])| == 0
  {
    RoomFits([], [c]);
  }

  /** A new string, no string because its negative size cannot be allocated, or the terminator written
      outside a block of no bytes. */
  datatype Joined = Joined(data: array<byte>, slen: nat) | NoMemory | WritesOutside

  /** `bjoin`. */
  method BJoin(l: seq<seq<byte>>, sep: seq<byte>) returns (r: Joined)
    ensures r.Joined? <==> l != [] || sep == []
    ensures r.WritesOutside? <==> l == [] && |sep| == 1
    ensures r.Joined? ==> fresh(r.data) && r.slen + 1 == r.data.Length
    ensures r.Joined? ==> r.data[..r.slen] == Join(l, sep) && r.data[r.slen] == 0
  {
    var c := RoomNeeded(l, sep);
    RoomFits(l, sep);
    if c < 0 { return NoMemory; }
    if c == 0 { return WritesOutside; }
    var data := new byte[c];
    var slen := c - 1;
    c := 0;
    for i := 0 to |l|
      invariant 0 <= c <= slen && data[..c] == Join(l[..i], sep)
    {
      JoinGrows(l, sep, i + 1);
      JoinNext(l, i, sep);
      c := PutEntry(data, c, if i > 0 then sep else [], l[i]);
    }
    assert l[..|l|] == l;
    data[c] := 0;
    r := Joined(data, slen);
  }

  /** The first loop of `bjoin`. */
  method RoomNeeded(l: seq<seq<byte>>, sep: seq<byte>) returns (c: int)
    ensures c == Room(l, sep)
  {
    c := 1;
    for i := 0 to |l|
      invariant c == 1 + Sum(l[..i])
    {
      assert l[..i + 1][..i] == l[..i];
      c := c + |l[i]|;
    }
    assert l[..|l|] == l;
    c := c + (|l| - 1) * |sep|;
  }

  /** Two block copies behind the first `c` bytes. */
  method PutEntry(data: array<byte>, c: nat, sep: seq<byte>, e: seq<byte>) returns (c': nat)
    requires c + |sep| + |e| <= data.Length
    modifies data
    ensures c' == c + |sep| + |e| && data[..c'] == old(data[..c]) + sep + e
  {
    CopyBytes(data, c, sep);
    CopyBytes(data, c + |sep|, e);
    c' := c + |sep| + |e|;
  }

  lemma JoinNext(l: seq<seq<byte>>, i: nat, sep: seq<byte>)
    requires i < |l|
    ensures Join(l[..i + 1], sep) == if i == 0 then l[0] else Join(l[..i], sep) + sep + l[i]
  {
    assert l[..i + 1][..i] == l[..i];
  }
}
