/** `findreplaceengine`: three in-place algorithms and the one specification they share. */
module FindReplace {
  import opened Bytes
  import opened Search
  import opened BStrings

  /** The leftmost occurrence at or after `pos`, or `BSTR_ERR`. */
  ghost function FirstAt(s: seq<byte>, pos: nat, find: seq<byte>): (r: int)
    ensures r == BSTR_ERR || pos <= r <= |s| - |find|
    decreases |s| - pos
  {
    if pos + |find| > |s| then BSTR_ERR
    else if OccursAt(s, pos, find) then pos
    else FirstAt(s, pos + 1, find)
  }

  /** The tail of `s` from `pos` with every leftmost, non-overlapping occurrence replaced. */
  ghost function ReplacedFrom(s: seq<byte>, pos: nat, find: seq<byte>, repl: seq<byte>): seq<byte>
    requires pos <= |s| && 0 < |find|
    decreases |s| - pos
  {
    var i := FirstAt(s, pos, find);
    if i < 0 then s[pos..] else s[pos..i] + repl + ReplacedFrom(s, i + |find|, find, repl)
  }

  ghost function Replaced(s: seq<byte>, pos: int, find: seq<byte>, repl: seq<byte>): seq<byte>
    requires 0 < |find|
  {
    if 0 <= pos <= |s| then s[..pos] + ReplacedFrom(s, pos, find, repl) else s
  }

  lemma {:induction false} FirstAtIsFirst(s: seq<byte>, pos: nat, find: seq<byte>)
    ensures IsFirst(s, pos, find, FirstAt(s, pos, find))
    decreases |s| - pos
  {
    if pos + |find| <= |s| && !OccursAt(s, pos, find) {
      FirstAtIsFirst(s, pos + 1, find);
    }
  }

  /** A search answer is determined by what `IsFirst` says of it. */
  lemma FirstIsUnique(s: seq<byte>, pos: nat, find: seq<byte>, r: int)
    requires IsFirst(s, pos, find, r)
    ensures r == FirstAt(s, pos, find)
  {
    var q := FirstAt(s, pos, find);
    FirstAtIsFirst(s, pos, find);
    assert 0 <= q && (r < 0 || q < r) ==> !OccursAt(s, q, find);
    assert 0 <= r && (q < 0 || r < q) ==> !OccursAt(s, r, find);
  }

  lemma OccursInSuffix(s: seq<byte>, pos: nat, p: nat, find: seq<byte>)
    requires pos <= p && pos <= |s|
    ensures OccursAt(s, p, find) == OccursAt(s[pos..], p - pos, find)
  {
    if p + |find| <= |s| {
      assert s[pos..][p - pos..p - pos + |find|] == s[p..p + |find|];
    }
  }

  /** A search from `pos` does not look at the bytes before `pos`. */
  lemma {:induction false} FirstIgnoresPrefix(s: seq<byte>, t: seq<byte>, pos: nat, find: seq<byte>)
    requires |s| == |t| && pos <= |s| && s[pos..] == t[pos..]
    ensures FirstAt(s, pos, find) == FirstAt(t, pos, find)
    decreases |s| - pos
  {
    OccursInSuffix(s, pos, pos, find);
    OccursInSuffix(t, pos, pos, find);
    if pos < |s| {
      assert s[pos + 1..] == s[pos..][1..] == t[pos..][1..] == t[pos + 1..];
      FirstIgnoresPrefix(s, t, pos + 1, find);
    }
  }

  /** The search the engine calls on its partly rewritten buffer answers as on the original text. */
  method SearchRest(a: array<byte>, slen: nat, pos: nat, find: seq<byte>, ghost s: seq<byte>) returns (i: int)
    requires pos <= slen == |s| <= a.Length && a[pos..slen] == s[pos..]
    ensures i == FirstAt(s, pos, find)
  {
    i := Binstr(a[..slen], pos, find);
    FirstIsUnique(a[..slen], pos, find, i);
    assert a[..slen][pos..] == a[pos..slen];
    FirstIgnoresPrefix(s, a[..slen], pos, find);
  }

  /** `bfindreplace`: dispatch on the sign of the length difference. */
  method FindReplaceEngine(b: BString, find: seq<byte>, repl: seq<byte>, pos: int) returns (ret: int)
    requires b.Valid()
    modifies b, b.data
    ensures b.Valid()
    ensures ret == if pos < 0 || find == [] then BSTR_ERR else BSTR_OK
    ensures find == [] ==> b.Contents() == old(b.Contents())
    ensures find != [] ==> b.Contents() == Replaced(old(b.Contents()), pos, find, repl)
  {
    if pos < 0 || |find| == 0 { return BSTR_ERR; }
    if pos > b.slen - |find| {
      NothingFits(b.Contents(), pos, find, repl);
      return BSTR_OK;
    }
    if |find| == |repl| {
      ReplaceEqual(b, find, repl, pos);
    } else if |find| > |repl| {
      ReplaceShrinking(b, find, repl, pos);
    } else {
      ReplaceExpanding(b, find, repl, pos);
    }
    ret := BSTR_OK;
  }

  lemma NothingFits(s: seq<byte>, pos: nat, find: seq<byte>, repl: seq<byte>)
    requires 0 < |find| && pos + |find| > |s|
    ensures Replaced(s, pos, find, repl) == s
  {
    if pos <= |s| {
      assert s == s[..pos] + s[pos..];
    }
  }

  /** How the finished text continues from output position `out`: the text kept up to the next
      occurrence, the replacement, and then the rest. */
  lemma TargetStep(s: seq<byte>, t: seq<byte>, pos: nat, out: nat, find: seq<byte>, repl: seq<byte>)
    requires pos <= |s| && 0 < |find| && GoesOn(t, out, s, pos, find, repl)
    ensures var i := FirstAt(s, pos, find);
            if i < 0 then |t| == out + |s| - pos && Agree(t, out, |t|, s, pos)
            else var next := out + i - pos + |repl|;
              && next <= |t| && GoesOn(t, next, s, i + |find|, find, repl)
              && Agree(t, out, next - |repl|, s, pos)
              && Agree(t, next - |repl|, next, repl, 0)
  {
    hide FirstAt, ReplacedFrom, Matches, Agree;
    var i := FirstAt(s, pos, find);
    Unfolded(s, pos, find, repl);
    if i < 0 {
      AgreeBehind(t, out, s, pos);
    } else {
      var rest := ReplacedFrom(s, i + |find|, find, repl);
      StepParts(t, out, s, pos, i, repl, rest);
    }
  }

  lemma AgreeBehind(t: seq<byte>, out: nat, s: seq<byte>, pos: nat)
    requires out <= |t| && pos <= |s| && t[out..] == s[pos..]
    ensures |t| == out + |s| - pos && Agree(t, out, |t|, s, pos)
  {
    assert forall x :: out <= x < |t| ==> t[x] == t[out..][x - out];
  }

  lemma StepParts(t: seq<byte>, out: nat, s: seq<byte>, pos: nat, i: nat, repl: seq<byte>, rest: seq<byte>)
    requires out <= |t| && pos <= i <= |s| && t[out..] == s[pos..i] + repl + rest
    ensures var next := out + i - pos + |repl|;
            && next <= |t| && t[next..] == rest
            && Agree(t, out, next - |repl|, s, pos) && Agree(t, next - |repl|, next, repl, 0)
  {
    var next := out + i - pos + |repl|;
    assert forall x :: out <= x < |t| ==> t[x] == t[out..][x - out];
    assert t[next..] == t[out..][next - out..];
  }

  /** From `out` on the finished text is what becomes of the text from `pos` on. */
  ghost predicate GoesOn(t: seq<byte>, out: nat, s: seq<byte>, pos: nat, find: seq<byte>, repl: seq<byte>)
    requires 0 < |find|
  {
    out <= |t| && pos <= |s| && t[out..] == ReplacedFrom(s, pos, find, repl)
  }

  /** The bytes `t[lo..hi]` are those of `s` from `from` on. */
  ghost predicate Agree(t: seq<byte>, lo: int, hi: int, s: seq<byte>, from: int) {
    0 <= lo <= hi <= |t| && 0 <= from <= from + hi - lo <= |s| && forall x :: lo <= x < hi ==> t[x] == s[x - lo + from]
  }

  lemma StartsOn(s: seq<byte>, from: nat, find: seq<byte>, repl: seq<byte>)
    requires from <= |s| && 0 < |find|
    ensures var t := Replaced(s, from, find, repl); GoesOn(t, from, s, from, find, repl) && Agree(t, 0, from, s, 0)
  {
  }

  /** The left-to-right algorithms after reading `pos` bytes and writing `out <= pos`: the buffer
      starts with finished text and still holds the unread text at its old place. */
  ghost predicate Progress(s: seq<byte>, t: seq<byte>, a: seq<byte>, pos: nat, out: nat,
                           find: seq<byte>, repl: seq<byte>)
    requires 0 < |find|
  {
    && out <= pos <= |s| <= |a| && out <= |t|
    && Agree(a, 0, out, t, 0) && Agree(a, pos, |s|, s, pos)
    && GoesOn(t, out, s, pos, find, repl)
  }

  /** One left-to-right step: close the gap up to the occurrence `i`, then copy the replacement. */
  method SlideAndCopy(data: array<byte>, pos: nat, i: nat, acc: nat, find: seq<byte>, repl: seq<byte>,
                      ghost s: seq<byte>, ghost t: seq<byte>)
    requires 0 < |find| && |repl| <= |find| && acc <= pos
    requires i == FirstAt(s, pos, find)
    requires Progress(s, t, data[..], pos, pos - acc, find, repl)
    modifies data
    ensures Progress(s, t, data[..], i + |find|, i - acc + |repl|, find, repl)
  {
    ghost var before := data[..];
    hide Progress, ReplacedFrom, FirstAt;
    RoomToSlide(s, t, before, pos, pos - acc, find, repl);
    Slide(data, pos, i, acc, repl);
    SlidProgress(s, t, before, data[..], pos, i, acc, find, repl);
  }

  method Slide(data: array<byte>, pos: nat, i: nat, acc: nat, repl: seq<byte>)
    requires acc <= pos <= i && i - acc + |repl| <= data.Length && i <= data.Length
    modifies data
    ensures Slid(old(data[..]), data[..], pos, i, acc, repl)
  {
    hide Shifted, Slid;
    ghost var a := data[..];
    MoveLeft(data, pos, i, acc);
    ghost var m := data[..];
    if |repl| != 0 {
      CopyBytes(data, i - acc, repl);
    }
    SlidFrom(a, m, data[..], pos, i, acc, repl);
  }

  method MoveLeft(data: array<byte>, pos: nat, i: nat, acc: nat)
    requires acc <= pos <= i <= data.Length
    modifies data
    ensures Shifted(old(data[..]), data[..], pos, i, acc)
  {
    if acc != 0 && i > pos {
      MoveBytes(data, pos - acc, pos, i - pos);
    }
  }

  /** The bytes from `pos` to `i` moved left by `acc`. */
  ghost predicate Shifted(a: seq<byte>, m: seq<byte>, pos: nat, i: nat, acc: nat)
    requires acc <= pos <= i <= |a|
  {
    && |m| == |a|
    && forall k {:trigger m[k]} :: 0 <= k < |m| ==> m[k] == if pos - acc <= k < i - acc then a[k + acc] else a[k]
  }

  lemma SlidFrom(a: seq<byte>, m: seq<byte>, b: seq<byte>, pos: nat, i: nat, acc: nat, repl: seq<byte>)
    requires acc <= pos <= i <= |a| && Shifted(a, m, pos, i, acc) && |b| == |m| && i - acc + |repl| <= |a|
    requires forall k {:trigger b[k]} :: 0 <= k < |b| ==>
               b[k] == if i - acc <= k < i - acc + |repl| then repl[k - (i - acc)] else m[k]
    ensures Slid(a, b, pos, i, acc, repl)
  {
  }

  lemma RoomToSlide(s: seq<byte>, t: seq<byte>, a: seq<byte>, pos: nat, out: nat, find: seq<byte>, repl: seq<byte>)
    requires 0 < |find| && Progress(s, t, a, pos, out, find, repl)
    ensures out <= pos <= |s| <= |a|
  {
  }

  /** The pieces between `pos` and `i` moved left by `acc`, and the replacement behind them. */
  ghost predicate Slid(a: seq<byte>, b: seq<byte>, pos: nat, i: nat, acc: nat, repl: seq<byte>)
    requires acc <= pos <= i <= |a|
  {
    && |b| == |a| && i - acc + |repl| <= |a|
    && forall k {:trigger b[k]} :: 0 <= k < |b| ==>
         b[k] == if i - acc <= k < i - acc + |repl| then repl[k - (i - acc)]
                 else if pos - acc <= k < i - acc then a[k + acc] else a[k]
  }

  lemma SlidProgress(s: seq<byte>, t: seq<byte>, a: seq<byte>, b: seq<byte>, pos: nat, i: nat, acc: nat,
                     find: seq<byte>, repl: seq<byte>)
    requires 0 < |find| && |repl| <= |find| && acc <= pos <= i && i + |find| <= |s| <= |a| && i == FirstAt(s, pos, find)
    requires Progress(s, t, a, pos, pos - acc, find, repl) && Slid(a, b, pos, i, acc, repl)
    ensures Progress(s, t, b, i + |find|, i - acc + |repl|, find, repl)
  {
    hide FirstAt, GoesOn, Slid, Agree;
    TargetStep(s, t, pos, pos - acc, find, repl);
    KeptRight(s, a, b, pos, i, acc, repl, i + |find|);
    DoneLeft(s, t, a, b, pos, i, acc, repl);
  }

  lemma KeptRight(s: seq<byte>, a: seq<byte>, b: seq<byte>, pos: nat, i: nat, acc: nat, repl: seq<byte>, next: nat)
    requires acc <= pos <= i <= next <= |s| <= |a| && i + |repl| <= next && Slid(a, b, pos, i, acc, repl)
    requires Agree(a, pos, |s|, s, pos)
    ensures |s| <= |b| && Agree(b, next, |s|, s, next)
  {
  }

  lemma DoneLeft(s: seq<byte>, t: seq<byte>, a: seq<byte>, b: seq<byte>, pos: nat, i: nat, acc: nat, repl: seq<byte>)
    requires acc <= pos <= i <= |s| <= |a| && Slid(a, b, pos, i, acc, repl)
    requires Agree(a, 0, pos - acc, t, 0) && Agree(a, pos, |s|, s, pos)
    requires Agree(t, pos - acc, i - acc, s, pos) && Agree(t, i - acc, i - acc + |repl|, repl, 0)
    ensures Agree(b, 0, i - acc + |repl|, t, 0)
  {
  }

  /** Equal lengths: overwrite each occurrence where it stands. */
  method ReplaceEqual(b: BString, find: seq<byte>, repl: seq<byte>, from: nat)
    requires b.Valid() && 0 < |find| == |repl| && from <= b.slen
    modifies b.data
    ensures b.Valid() && b.Contents() == Replaced(old(b.Contents()), from, find, repl)
  {
    hide FirstAt, Replaced, GoesOn;
    ghost var s := b.Contents();
    ghost var t := Replaced(s, from, find, repl);
    StartsOn(s, from, find, repl);
    var pos := from;
    var i := SearchRest(b.data, b.slen, pos, find, s);
    while i >= 0
      invariant Progress(s, t, b.data[..], pos, pos, find, repl)
      invariant i == FirstAt(s, pos, find)
      decreases |s| - pos
    {
      SlideAndCopy(b.data, pos, i, 0, find, repl, s, t);
      pos := i + |find|;
      i := SearchRest(b.data, b.slen, pos, find, s);
    }
    TargetStep(s, t, pos, pos, find, repl);
  }

  /** Shorter replacement: slide the kept text left over the space gained so far. */
  method ReplaceShrinking(b: BString, find: seq<byte>, repl: seq<byte>, from: nat)
    requires b.Valid() && |repl| < |find| && from <= b.slen
    modifies b, b.data
    ensures b.Valid() && b.Contents() == Replaced(old(b.Contents()), from, find, repl)
  {
    hide FirstAt, Replaced, GoesOn;
    ghost var s := b.Contents();
    ghost var t := Replaced(s, from, find, repl);
    StartsOn(s, from, find, repl);
    var pos, acc := from, 0;
    var i := SearchRest(b.data, b.slen, pos, find, s);
    while i >= 0
      invariant b.data == old(b.data) && b.slen == |s| && 0 <= acc <= pos
      invariant Progress(s, t, b.data[..], pos, pos - acc, find, repl)
      invariant i == FirstAt(s, pos, find)
      decreases |s| - pos
    {
      SlideAndCopy(b.data, pos, i, acc, find, repl, s, t);
      acc := acc + |find| - |repl|;
      pos := i + |find|;
      i := SearchRest(b.data, b.slen, pos, find, s);
    }
    TargetStep(s, t, pos, pos - acc, find, repl);
    CloseGap(b, pos, acc, s, t);
  }

  /** Slide the text behind the last occurrence and shorten the string. */
  method CloseGap(b: BString, pos: nat, acc: nat, ghost s: seq<byte>, ghost t: seq<byte>)
    requires b.Valid() && b.slen == |s| && acc <= pos <= |s| && |t| == |s| - acc
    requires Agree(b.data[..], 0, pos - acc, t, 0) && Agree(b.data[..], pos, |s|, s, pos)
    requires Agree(t, pos - acc, |t|, s, pos)
    modifies b, b.data
    ensures b.Valid() && b.Contents() == t
  {
    hide Agree, Shifted;
    ghost var a := b.data[..];
    if acc != 0 {
      MoveLeft(b.data, pos, b.slen, acc);
      ghost var m := b.data[..];
      GapClosed(a, m, pos, acc, s, t);
      b.slen := b.slen - acc;
      b.data[b.slen] := 0;
      assert b.data[..b.slen] == m[..|t|];
    } else {
      NotShifted(a, pos, |s|);
      GapClosed(a, a, pos, acc, s, t);
    }
  }

  lemma NotShifted(a: seq<byte>, pos: nat, i: nat)
    requires pos <= i <= |a|
    ensures Shifted(a, a, pos, i, 0)
  {
  }

  lemma GapClosed(a: seq<byte>, m: seq<byte>, pos: nat, acc: nat, s: seq<byte>, t: seq<byte>)
    requires acc <= pos <= |s| <= |a| && |t| == |s| - acc && Shifted(a, m, pos, |s|, acc)
    requires Agree(a, 0, pos - acc, t, 0) && Agree(a, pos, |s|, s, pos) && Agree(t, pos - acc, |t|, s, pos)
    ensures m[..|t|] == t
  {
  }

  /** The positions at which replacement happens, left to right. */
  ghost function Matches(s: seq<byte>, pos: nat, find: seq<byte>): (d: seq<nat>)
    requires pos <= |s| && 0 < |find|
    ensures forall k :: 0 <= k < |d| ==> pos <= d[k] <= |s| - |find|
    decreases |s| - pos
  {
    var i := FirstAt(s, pos, find);
    if i < 0 then [] else [i] + Matches(s, i + |find|, find)
  }

  /** Two chosen occurrences never overlap, and each one is an occurrence. */
  lemma {:induction false} MatchesAreApart(s: seq<byte>, pos: nat, find: seq<byte>, k: nat)
    requires pos <= |s| && 0 < |find| && k < |Matches(s, pos, find)|
    ensures var d := Matches(s, pos, find);
            OccursAt(s, d[k], find) && forall j :: 0 <= j < k ==> d[j] + |find| <= d[k]
    decreases |s| - pos
  {
    FirstAtIsFirst(s, pos, find);
    if k > 0 {
      MatchesAreApart(s, FirstAt(s, pos, find) + |find|, find, k - 1);
    }
  }

  /** No occurrence at or after `pos` escapes: it starts inside some chosen one. */
  lemma {:induction false} EveryOccurrenceIsHit(s: seq<byte>, pos: nat, find: seq<byte>, p: nat) returns (k: nat)
    requires pos <= p && pos <= |s| && 0 < |find| && OccursAt(s, p, find)
    ensures var d := Matches(s, pos, find);
            k < |d| && d[k] <= p < d[k] + |find|
    decreases |s| - pos
  {
    FirstAtIsFirst(s, pos, find);
    var i := FirstAt(s, pos, find);
    if p < i + |find| {
      k := 0;
    } else {
      k := EveryOccurrenceIsHit(s, i + |find|, find, p);
      k := k + 1;
    }
  }

  /** The end of the text kept on the right of match `k - 1`. */
  ghost function Bound(s: seq<byte>, d: seq<nat>, k: nat): nat {
    if k < |d| then d[k] else |s|
  }

  /** `n * step` as a running total. */
  ghost function Times(n: nat, step: int): int {
    if n == 0 then 0 else Times(n - 1, step) + step
  }

  /** Where the replacement puts things: match `k` moves by `k` growths, its replacement stands there,
      and behind it the text up to the next match. */
  ghost predicate PieceAt(s: seq<byte>, d: seq<nat>, t: seq<byte>, origin: nat, k: nat,
                          find: seq<byte>, repl: seq<byte>)
    requires k < |d|
  {
    var base := d[k] - origin + Times(k, |repl| - |find|);
    var after := base + |repl| + Bound(s, d, k + 1) - d[k] - |find|;
    && d[k] + |find| <= Bound(s, d, k + 1)
    && Agree(t, base, base + |repl|, repl, 0)
    && Agree(t, base + |repl|, after, s, d[k] + |find|)
  }

  /** The whole text `t` that the replacement makes of `s` from `pos` on: its length, the text before the
      first match, and the piece at each match. */
  ghost predicate Laid(s: seq<byte>, pos: nat, d: seq<nat>, t: seq<byte>, find: seq<byte>, repl: seq<byte>) {
    && |t| == |s| - pos + Times(|d|, |repl| - |find|)
    && pos <= Bound(s, d, 0) && Agree(t, 0, Bound(s, d, 0) - pos, s, pos)
    && forall k :: 0 <= k < |d| ==> PieceAt(s, d, t, pos, k, find, repl)
  }

  lemma {:induction false} TargetPieces(s: seq<byte>, pos: nat, find: seq<byte>, repl: seq<byte>)
    requires pos <= |s| && 0 < |find|
    ensures Laid(s, pos, Matches(s, pos, find), ReplacedFrom(s, pos, find, repl), find, repl)
    decreases |s| - pos
  {
    var i, d, t := FirstAt(s, pos, find), Matches(s, pos, find), ReplacedFrom(s, pos, find, repl);
    hide *;
    if i < 0 {
      Unfolded(s, pos, find, repl);
      NoPieces(s, pos, find, repl);
    } else {
      var next := i + |find|;
      UnfoldedParts(s, pos, find, repl, i, next);
      TargetPieces(s, next, find, repl);
      LaidStep(s, pos, find, repl, i, next, d, Matches(s, next, find), t, ReplacedFrom(s, next, find, repl));
    }
  }

  lemma LaidStep(s: seq<byte>, pos: nat, find: seq<byte>, repl: seq<byte>, i: nat, next: nat,
                 d: seq<nat>, e: seq<nat>, t: seq<byte>, u: seq<byte>)
    requires 0 < |find| && pos <= i && next == i + |find| <= |s| && Before(d, i, e)
    requires Parts(s, pos, i, repl, t, u) && Laid(s, next, e, u, find, repl)
    ensures Laid(s, pos, d, t, find, repl)
  {
    hide Parts, Before, Bound, Times, PieceAt, Agree, Tail;
    FirstBound(s, d, i, e);
    PartSizes(s, pos, i, repl, t, u);
    TimesNext(|e|, |repl| - |find|);
    PiecesStep(s, pos, find, repl, i, next, d, e, t, u);
  }

  lemma Unfolded(s: seq<byte>, pos: nat, find: seq<byte>, repl: seq<byte>)
    requires pos <= |s| && 0 < |find|
    ensures var i, d, t := FirstAt(s, pos, find), Matches(s, pos, find), ReplacedFrom(s, pos, find, repl);
            if i < 0 then d == [] && t == s[pos..]
            else
              && pos <= i && i + |find| <= |s| && d == [i] + Matches(s, i + |find|, find)
              && t == s[pos..i] + repl + ReplacedFrom(s, i + |find|, find, repl)
  {
  }

  lemma NoPieces(s: seq<byte>, pos: nat, find: seq<byte>, repl: seq<byte>)
    requires pos <= |s|
    ensures Laid(s, pos, [], s[pos..], find, repl)
  {
  }

  /** The same around a match, part by part. */
  lemma UnfoldedParts(s: seq<byte>, pos: nat, find: seq<byte>, repl: seq<byte>, i: nat, next: nat)
    requires pos <= |s| && 0 < |find| && i == FirstAt(s, pos, find) && next == i + |find|
    ensures pos <= i && next <= |s| && Before(Matches(s, pos, find), i, Matches(s, next, find))
    ensures Parts(s, pos, i, repl, ReplacedFrom(s, pos, find, repl), ReplacedFrom(s, next, find, repl))
  {
    Unfolded(s, pos, find, repl);
    hide FirstAt, ReplacedFrom, Matches, Agree, Tail, Before;
    PieceParts(s, pos, i, repl, ReplacedFrom(s, next, find, repl));
    ConsBefore(i, Matches(s, next, find));
  }

  /** The text kept before the match, the replacement, and what becomes of the rest. */
  ghost predicate Parts(s: seq<byte>, pos: nat, i: nat, repl: seq<byte>, t: seq<byte>, u: seq<byte>)
    requires pos <= i
  {
    Agree(t, 0, i - pos, s, pos) && Agree(t, i - pos, i - pos + |repl|, repl, 0) && Tail(t, i - pos + |repl|, u)
  }

  lemma PartSizes(s: seq<byte>, pos: nat, i: nat, repl: seq<byte>, t: seq<byte>, u: seq<byte>)
    requires pos <= i && Parts(s, pos, i, repl, t, u)
    ensures |t| == i - pos + |repl| + |u|
    ensures Agree(t, 0, i - pos, s, pos) && Agree(t, i - pos, i - pos + |repl|, repl, 0) && Tail(t, i - pos + |repl|, u)
  {
    TailSize(t, i - pos + |repl|, u);
  }

  /** The first match in front of the others. */
  ghost predicate Before(d: seq<nat>, i: nat, e: seq<nat>) {
    |d| == |e| + 1 && d[0] == i && forall j {:trigger e[j]} :: 0 <= j < |e| ==> d[j + 1] == e[j]
  }

  lemma ConsBefore(i: nat, e: seq<nat>)
    ensures Before([i] + e, i, e)
  {
  }

  /** The pieces of the whole from those of the rest behind its first match. */
  lemma PiecesStep(s: seq<byte>, pos: nat, find: seq<byte>, repl: seq<byte>, i: nat, next: nat,
                   d: seq<nat>, e: seq<nat>, t: seq<byte>, u: seq<byte>)
    requires 0 < |find| && pos <= i && next == i + |find| <= |s| && |d| == |e| + 1 && Before(d, i, e)
    requires Agree(t, i - pos, i - pos + |repl|, repl, 0) && Tail(t, i - pos + |repl|, u)
    requires next <= Bound(s, e, 0) && Agree(u, 0, Bound(s, e, 0) - next, s, next)
    requires forall k :: 0 <= k < |e| ==> PieceAt(s, e, u, next, k, find, repl)
    ensures forall k :: 0 <= k < |d| ==> PieceAt(s, d, t, pos, k, find, repl)
  {
    hide *;
    forall k | 0 <= k < |d|
      ensures PieceAt(s, d, t, pos, k, find, repl)
    {
      if k == 0 {
        PieceZero(s, pos, find, repl, i, next, d, e, t, u);
      } else {
        assert PieceAt(s, e, u, next, k - 1, find, repl);
        PieceShift(s, pos, find, repl, i, next, d, e, t, u, k);
      }
    }
  }

  lemma FirstBound(s: seq<byte>, d: seq<nat>, i: nat, e: seq<nat>)
    requires Before(d, i, e)
    ensures |d| == |e| + 1 && Bound(s, d, 0) == i
  {
  }

  lemma TimesNext(n: nat, step: int)
    ensures Times(n + 1, step) == Times(n, step) + step
  {
  }

  lemma {:induction false} TimesGrow(n: nat, step: nat)
    ensures 0 <= Times(n, step)
  {
    if n > 0 { TimesGrow(n - 1, step); }
  }

  /** The text before the first match, the replacement, and the rest. */
  lemma PieceParts(s: seq<byte>, pos: nat, i: nat, repl: seq<byte>, u: seq<byte>)
    requires pos <= i <= |s|
    ensures Parts(s, pos, i, repl, s[pos..i] + repl + u, u)
  {
  }

  /** `u` is what stands behind `off` in `t`. */
  ghost predicate Tail(t: seq<byte>, off: nat, u: seq<byte>) {
    off <= |t| && t[off..] == u
  }

  lemma TailSize(t: seq<byte>, off: nat, u: seq<byte>)
    requires Tail(t, off, u)
    ensures |t| == off + |u|
  {
  }

  /** A part of the rest is a part of the whole, further right. */
  lemma AgreeShift(t: seq<byte>, off: nat, u: seq<byte>, lo: int, hi: int, s: seq<byte>, from: int)
    requires Tail(t, off, u) && Agree(u, lo, hi, s, from)
    ensures Agree(t, lo + off, hi + off, s, from)
  {
    assert forall x :: lo + off <= x < hi + off ==> t[x] == u[x - off];
  }

  /** The first piece: the replacement of the first match, and the text kept behind it. */
  lemma PieceZero(s: seq<byte>, pos: nat, find: seq<byte>, repl: seq<byte>, i: nat, next: nat,
                  d: seq<nat>, e: seq<nat>, t: seq<byte>, u: seq<byte>)
    requires 0 < |find| && pos <= i && next == i + |find| <= |s| && |d| == |e| + 1 && Before(d, i, e)
    requires Agree(t, i - pos, i - pos + |repl|, repl, 0) && Tail(t, i - pos + |repl|, u)
    requires next <= Bound(s, e, 0) && Agree(u, 0, Bound(s, e, 0) - next, s, next)
    ensures PieceAt(s, d, t, pos, 0, find, repl)
  {
    hide Agree, Times, Tail;
    NoTimes(|repl| - |find|);
    assert Bound(s, d, 1) == Bound(s, e, 0);
    AgreeShift(t, i - pos + |repl|, u, 0, Bound(s, e, 0) - next, s, next);
  }

  /** Pieces of the rest are pieces of the whole, one place later. */
  lemma PieceShift(s: seq<byte>, pos: nat, find: seq<byte>, repl: seq<byte>, i: nat, next: nat,
                   d: seq<nat>, e: seq<nat>, t: seq<byte>, u: seq<byte>, k: nat)
    requires 0 < |find| && pos <= i && next == i + |find| <= |s| && 0 < k < |d| == |e| + 1 && Before(d, i, e)
    requires Tail(t, i - pos + |repl|, u) && PieceAt(s, e, u, next, k - 1, find, repl)
    ensures PieceAt(s, d, t, pos, k, find, repl)
  {
    hide Agree, Times, Tail;
    var off := i - pos + |repl|;
    assert Bound(s, d, k + 1) == Bound(s, e, k);
    TimesNext(k - 1, |repl| - |find|);
    var base := e[k - 1] - next + Times(k - 1, |repl| - |find|);
    var after := base + |repl| + Bound(s, e, k) - e[k - 1] - |find|;
    AgreeShift(t, off, u, base, base + |repl|, repl, 0);
    AgreeShift(t, off, u, base + |repl|, after, s, e[k - 1] + |find|);
  }

  lemma NoTimes(step: int)
    ensures Times(0, step) == 0
  {
  }

  /** Store one more index, doubling the index array when only its spare cell is left. */
  method PushIndex(d: array<nat>, count: nat, i: nat) returns (e: array<nat>)
    requires count < d.Length
    modifies d
    ensures e == d || fresh(e)
    ensures count + 1 < e.Length && e[..count + 1] == old(d[..count]) + [i]
  {
    e := d;
    if count >= d.Length - 1 {
      e := new nat[2 * d.Length](_ => 0);
      forall k | 0 <= k < d.Length {
        e[k] := d[k];
      }
    }
    e[count] := i;
  }

  lemma MatchesUnfold(t: seq<byte>, pos: nat, find: seq<byte>, before: seq<nat>)
    requires pos <= |t| && 0 < |find|
    ensures var i := FirstAt(t, pos, find);
            before + Matches(t, pos, find) == if i < 0 then before else before + [i] + Matches(t, i + |find|, find)
  {
  }

  /** Collect the match positions in a growable index array that always keeps one free cell. */
  method CollectMatches(t: seq<byte>, find: seq<byte>, growth: nat, from: nat)
      returns (d: array<nat>, count: nat, acc: nat)
    requires 0 < |find| && from <= |t|
    ensures count < d.Length && d[..count] == Matches(t, from, find)
    ensures acc == Times(count, growth)
    ensures fresh(d)
  {
    hide FirstAt, IsFirst, Matches;
    d := new nat[32](_ => 0);
    count, acc := 0, 0;
    var pos := from;
    var i := Binstr(t, pos, find);
    FirstIsUnique(t, pos, find, i);
    while i >= 0
      invariant fresh(d) && count < d.Length && acc == Times(count, growth)
      invariant from <= pos <= |t|
      invariant d[..count] + Matches(t, pos, find) == Matches(t, from, find)
      invariant i == FirstAt(t, pos, find)
      decreases |t| - pos
    {
      MatchesUnfold(t, pos, find, d[..count]);
      d := PushIndex(d, count, i);
      count, acc := count + 1, acc + growth;
      pos := i + |find|;
      i := Binstr(t, pos, find);
      FirstIsUnique(t, pos, find, i);
    }
    MatchesUnfold(t, pos, find, d[..count]);
  }

  /** Everything from match `k` on stands at its final place; everything before it is untouched. */
  ghost predicate RightPartDone(s: seq<byte>, m: seq<nat>, t: seq<byte>, a: seq<byte>, k: nat, acc: int) {
    var e := Bound(s, m, k);
    && e <= |s| <= |a| && e + acc <= |t| < |a|
    && Agree(a, 0, e, s, 0)
    && Agree(a, e + acc, |t|, t, e + acc)
  }

  /** One right-to-left step: move the text behind match `i` by `acc`, then put the replacement
      directly in front of it. */
  method MoveStep(data: array<byte>, d: array<nat>, i: nat, acc: nat, find: seq<byte>, repl: seq<byte>,
                  ghost s: seq<byte>, ghost m: seq<nat>, ghost t: seq<byte>)
    requires |find| < |repl| && i < |m| < d.Length && d[..|m|] == m && d[|m|] == |s|
    requires acc == Times(i + 1, |repl| - |find|)
    requires PieceAt(s, m, t, 0, i, find, repl)
    requires RightPartDone(s, m, t, data[..], i + 1, acc)
    modifies data
    ensures RightPartDone(s, m, t, data[..], i, acc - (|repl| - |find|))
  {
    TimesNext(i, |repl| - |find|);
    TimesGrow(i, |repl| - |find|);
    assert d[i] == m[i] && d[i + 1] == Bound(s, m, i + 1);
    var start := d[i] + |find|;
    if d[i + 1] - start != 0 {
      MoveBytes(data, start + acc, start, d[i + 1] - start);
    }
    if |repl| != 0 {
      CopyBytes(data, start + acc - |repl|, repl);
    }
  }

  /** Longer replacement: find every match first, grow once, then move pieces right to left. */
  method ReplaceExpanding(b: BString, find: seq<byte>, repl: seq<byte>, from: nat)
    requires b.Valid() && 0 < |find| < |repl| && from <= b.slen
    modifies b, b.data
    ensures b.Valid() && b.Contents() == Replaced(old(b.Contents()), from, find, repl)
  {
    hide Matches, ReplacedFrom, PieceAt;
    ghost var s := b.Contents();
    ghost var m, t := Matches(s, from, find), Replaced(s, from, find, repl);
    var d, count, acc := CollectMatches(b.data[..b.slen], find, |repl| - |find|, from);
    ExpandedPieces(s, from, find, repl);
    d[count] := b.slen;
    assert d[..count] == m;
    var newLen := b.slen + acc;
    b.Alloc(newLen + 1);
    assert Agree(b.data[..], 0, |s|, s, 0);
    MovePieces(b.data, d, count, acc, find, repl, s, m, t);
    ExpandedDone(s, from, find, repl, b.data[..]);
    b.slen := newLen;
    b.data[b.slen] := 0;
  }

  /** The loop over the matches from the last to the first. */
  method MovePieces(data: array<byte>, d: array<nat>, count: nat, total: nat, find: seq<byte>, repl: seq<byte>,
                    ghost s: seq<byte>, ghost m: seq<nat>, ghost t: seq<byte>)
    requires |find| < |repl| && count == |m| < d.Length && d[..count] == m && d[count] == |s|
    requires total == Times(count, |repl| - |find|)
    requires forall k :: 0 <= k < |m| ==> PieceAt(s, m, t, 0, k, find, repl)
    requires RightPartDone(s, m, t, data[..], count, total)
    modifies data
    ensures RightPartDone(s, m, t, data[..], 0, 0)
  {
    hide PieceAt, RightPartDone;
    var acc, i := total, count - 1;
    while i >= 0
      invariant -1 <= i < count && 0 <= acc == Times(i + 1, |repl| - |find|)
      invariant RightPartDone(s, m, t, data[..], i + 1, acc)
    {
      MoveStep(data, d, i, acc, find, repl, s, m, t);
      TimesNext(i, |repl| - |find|);
      TimesGrow(i, |repl| - |find|);
      acc := acc - (|repl| - |find|);
      i := i - 1;
    }
  }

  /** `TargetPieces` seen from the start of the whole string. */
  lemma ExpandedPieces(s: seq<byte>, from: nat, find: seq<byte>, repl: seq<byte>)
    requires from <= |s| && 0 < |find|
    ensures var m, t := Matches(s, from, find), Replaced(s, from, find, repl);
            && |t| == |s| + Times(|m|, |repl| - |find|)
            && Agree(t, 0, Bound(s, m, 0), s, 0)
            && forall k :: 0 <= k < |m| ==> PieceAt(s, m, t, 0, k, find, repl)
  {
    hide Matches, ReplacedFrom, PieceAt;
    TargetPieces(s, from, find, repl);
    var m, t, u := Matches(s, from, find), Replaced(s, from, find, repl), ReplacedFrom(s, from, find, repl);
    assert Tail(t, from, u);
    AgreeShift(t, from, u, 0, Bound(s, m, 0) - from, s, from);
    forall k | 0 <= k < |m|
      ensures PieceAt(s, m, t, 0, k, find, repl)
    {
      PieceOfWhole(s, m, t, u, from, k, find, repl);
    }
  }

  lemma PieceOfWhole(s: seq<byte>, m: seq<nat>, t: seq<byte>, u: seq<byte>, from: nat, k: nat,
                     find: seq<byte>, repl: seq<byte>)
    requires k < |m| && Tail(t, from, u) && PieceAt(s, m, u, from, k, find, repl)
    ensures PieceAt(s, m, t, 0, k, find, repl)
  {
    hide Agree, Times, Tail;
    var base := m[k] - from + Times(k, |repl| - |find|);
    var after := base + |repl| + Bound(s, m, k + 1) - m[k] - |find|;
    AgreeShift(t, from, u, base, base + |repl|, repl, 0);
    AgreeShift(t, from, u, base + |repl|, after, s, m[k] + |find|);
  }

  lemma ExpandedDone(s: seq<byte>, from: nat, find: seq<byte>, repl: seq<byte>, a: seq<byte>)
    requires from <= |s| && 0 < |find| <= |repl|
    requires RightPartDone(s, Matches(s, from, find), Replaced(s, from, find, repl), a, 0, 0)
    ensures var t := Replaced(s, from, find, repl); |t| < |a| && a[..|t|] == t
  {
    hide Matches, ReplacedFrom, PieceAt, Times;
    ExpandedPieces(s, from, find, repl);
  }
}
