/** `bStream`: reading lines and blocks from a source that delivers chunks of any size, with a buffer
    for what was read too far. */
module StreamReader {
  import opened Bytes
  import opened BStrings

  /** A core stream behind an `fread`-like function. Entry by entry, `plan` bounds the sizes of the
      chunks it delivers; a non-positive entry is returned as it is, as an error or an early end. An
      honest source returns nothing only when nothing is left. */
  class Source {
    var rest: seq<byte>
    var plan: seq<int>
    ghost const honest: bool
    /** How many reads delivered nothing. */
    ghost var refusals: nat

    constructor (rest: seq<byte>, plan: seq<int>)
      ensures this.rest == rest && this.plan == plan && Valid()
      ensures honest == (forall i :: 0 <= i < |plan| ==> 0 < plan[i]) && refusals == 0
    {
      this.rest, this.plan, this.honest := rest, plan, forall i :: 0 <= i < |plan| ==> 0 < plan[i];
      this.refusals := 0;
    }

    ghost predicate Valid()
      reads this
    {
      honest ==> forall i :: 0 <= i < |plan| ==> 0 < plan[i]
    }

    function NextSize(most: nat): int
      reads this
    {
      var cap := if |rest| < most then |rest| else most;
      if plan == [] || plan[0] > cap then cap else plan[0]
    }

    /** `readFnPtr (b, 1, most, parm)` with `b` at `off` in `dest`. */
    method Read(dest: array<byte>, off: nat, most: nat) returns (l: int)
      requires Valid() && off + most <= dest.Length
      modifies this, dest
      ensures Valid() && l == old(NextSize(most)) <= most && (honest && l <= 0 ==> most == 0 || old(rest) == [])
      ensures l > 0 ==> l <= |old(rest)| && rest == old(rest)[l..]
      ensures l <= 0 ==> rest == old(rest)
      ensures refusals == old(refusals) + if l <= 0 then 1 else 0
      ensures forall k :: 0 <= k < dest.Length ==>
                dest[k] == if off <= k < off + l then old(rest)[k - off] else old(dest[k])
    {
      l := NextSize(most);
      if plan != [] { plan := plan[1..]; }
      if l > 0 {
        CopyBytes(dest, off, rest[..l]);
        rest := rest[l..];
      } else {
        refusals := refusals + 1;
      }
    }
  }

  /** Put the terminator behind `l` bytes and search without a bound. */
  method ScanTo(b: array<byte>, at: nat, l: nat, terminator: byte) returns (i: nat)
    requires at + l < b.Length
    modifies b
    ensures i <= l && (i < l ==> b[at + i] == terminator)
    ensures forall k :: at <= k < at + i ==> b[k] != terminator
    ensures forall k :: 0 <= k < b.Length && k != at + l ==> b[k] == old(b[k])
  {
    b[at + l] := terminator;
    i := 0;
    while b[at + i] != terminator
      invariant i <= l
      invariant forall k :: at <= k < at + i ==> b[k] != terminator
      decreases l - i
    {
      i := i + 1;
    }
  }

  /** The bytes through the first terminator, or all of them. */
  function Line(s: seq<byte>, terminator: byte): (r: seq<byte>)
    ensures r <= s && (s != [] ==> r != [])
  {
    if s == [] then [] else if s[0] == terminator then [s[0]]
    else
      var rest := Line(s[1..], terminator);
      assert s == [s[0]] + s[1..];
      [s[0]] + rest
  }

  /** A prefix without terminator before its last byte is the line if it ends in one or is all. */
  lemma {:induction false} LineUnique(a: seq<byte>, rest: seq<byte>, terminator: byte)
    requires forall i :: 0 <= i < |a| - 1 ==> a[i] != terminator
    requires if a != [] && a[|a| - 1] == terminator then true else rest == []
    ensures Line(a + rest, terminator) == a
  {
    if |a| > 0 {
      assert (a + rest)[1..] == a[1..] + rest;
      if a[0] != terminator { LineUnique(a[1..], rest, terminator); }
    }
  }

  lemma MoveChunk(a: seq<byte>, b: seq<byte>, l: nat)
    requires l <= |b|
    ensures a + b[..l] + b[l..] == a + b
  {
    assert b[..l] + b[l..] == b;
  }

  /** Bytes went from the front of one string to the end of the other, in order and without loss. */
  ghost predicate Moved(r0: seq<byte>, r1: seq<byte>, p0: seq<byte>, p1: seq<byte>) {
    r0 <= r1 && r1 + p1 == r0 + p0
  }

  /** What was added behind `from` ends in the terminator and holds no other. */
  ghost predicate Stops(r: seq<byte>, from: nat, terminator: byte) {
    from < |r| && r[|r| - 1] == terminator && forall k :: from <= k < |r| - 1 ==> r[k] != terminator
  }

  ghost predicate Lacks(r: seq<byte>, from: nat, terminator: byte) {
    forall k :: from <= k < |r| ==> r[k] != terminator
  }

  /** The buffered bytes hold no terminator, so the line is theirs and that of the direct reads. */
  lemma LineDone(r0: seq<byte>, b: seq<byte>, rest: seq<byte>, r1: seq<byte>, p1: seq<byte>, terminator: byte)
    requires terminator !in b && |r0 + b| <= |r1| && r1 + p1 == r0 + b + rest
    ensures Moved(r0, r1, b + rest, p1)
    ensures Stops(r1, |r0 + b|, terminator) ==> Stops(r1, |r0|, terminator)
    ensures Lacks(r1, |r0 + b|, terminator) ==> Lacks(r1, |r0|, terminator)
  {
    assert r0 + b + rest == r0 + (b + rest);
    assert r1 == (r1 + p1)[..|r1|];
    assert forall k :: |r0| <= k < |r0 + b| ==> r1[k] == (r0 + b + rest)[k] == b[k - |r0|];
    assert r0 == (r0 + b + rest)[..|r0|];
  }

  lemma BufferedLine(r0: seq<byte>, b: seq<byte>, rest: seq<byte>, i: nat, terminator: byte)
    requires i < |b| && b[i] == terminator && terminator !in b[..i]
    ensures Moved(r0, r0 + b[..i + 1], b + rest, b[i + 1..] + rest)
    ensures Stops(r0 + b[..i + 1], |r0|, terminator)
  {
    assert b == b[..i + 1] + b[i + 1..];
    var t := r0 + b[..i + 1];
    assert forall k :: |r0| <= k < |r0| + i ==> t[k] == b[..i][k - |r0|];
  }

  lemma LacksNothing(r: seq<byte>, terminator: byte)
    ensures Lacks(r, |r|, terminator)
  {
  }

  lemma LineGrows(r: seq<byte>, from: nat, rest: seq<byte>, l: nat, i: nat, terminator: byte)
    requires Lacks(r, from, terminator) && from <= |r| && i <= l <= |rest| && terminator !in rest[..i]
    requires i < l ==> rest[i] == terminator
    ensures if i == l then Lacks(r + rest[..l], from, terminator)
            else Stops((r + rest[..l])[..|r| + i + 1], from, terminator)
  {
    var t := r + rest[..l];
    assert forall k :: |r| <= k < |r| + i ==> t[k] == rest[..i][k - |r|];
  }

  lemma LineOfMove(r0: seq<byte>, r1: seq<byte>, p0: seq<byte>, p1: seq<byte>, terminator: byte)
    requires Moved(r0, r1, p0, p1)
    requires Stops(r1, |r0|, terminator) || (p1 == [] && Lacks(r1, |r0|, terminator))
    ensures r1 == r0 + Line(p0, terminator)
  {
    var a := r1[|r0|..];
    assert p0 == (r0 + p0)[|r0|..] == (r1 + p1)[|r0|..] == a + p1;
    LineUnique(a, p1, terminator);
  }

  lemma MovedNothing(r: seq<byte>, p: seq<byte>)
    ensures Moved(r, r, p, p)
  {
  }

  lemma MovedMore(r0: seq<byte>, r1: seq<byte>, p0: seq<byte>, b: seq<byte>, rest: seq<byte>, n: nat)
    requires n <= |b| && Moved(r0, r1, p0, b + rest)
    ensures Moved(r0, r1 + b[..n], p0, b[n..] + rest)
  {
    assert b == b[..n] + b[n..];
    assert r1 + b[..n] + (b[n..] + rest) == r1 + (b + rest);
  }

  lemma MovedAll(r0: seq<byte>, r1: seq<byte>, p0: seq<byte>, b: seq<byte>, rest: seq<byte>)
    requires Moved(r0, r1, p0, b + rest)
    ensures Moved(r0, r1 + b, p0, rest)
  {
    Regroup(r1, b, rest);
  }

  lemma MovedLength(r0: seq<byte>, r1: seq<byte>, p0: seq<byte>, p1: seq<byte>)
    requires Moved(r0, r1, p0, p1)
    ensures |r0| <= |r1| && |r1| + |p1| == |r0| + |p0|
  {
  }

  /** The first terminator from `at` on stands at `at + i`, or there is none. */
  ghost predicate Found(s: seq<byte>, at: nat, i: nat, terminator: byte) {
    && at + i <= |s| && (at + i < |s| ==> s[at + i] == terminator)
    && forall k :: at <= k < at + i ==> s[k] != terminator
  }

  lemma FoundInRest(c: seq<byte>, rest: seq<byte>, l: nat, i: nat, terminator: byte)
    requires i <= l <= |rest| && Found(c + rest[..l], |c|, i, terminator)
    ensures (i < l ==> rest[i] == terminator) && terminator !in rest[..i]
  {
    var d := c + rest[..l];
    assert forall k :: 0 <= k < i ==> rest[..i][k] == d[|c| + k];
    if i < l { assert d[|c| + i] == rest[i]; }
  }

  /** The line so far, without a terminator behind `from`, and what is left of the source make up the
      whole. */
  ghost predicate Unfinished(r: seq<byte>, rest: seq<byte>, all: seq<byte>, from: nat, terminator: byte) {
    from <= |r| && r + rest == all && Lacks(r, from, terminator)
  }

  lemma NotBegun(r: seq<byte>, rest: seq<byte>, terminator: byte)
    ensures Unfinished(r, rest, r + rest, |r|, terminator)
  {
  }

  lemma NotFinished(r: seq<byte>, rest: seq<byte>, all: seq<byte>, from: nat, terminator: byte)
    requires Unfinished(r, rest, all, from, terminator)
    ensures from <= |r| && r + rest == all && Lacks(r, from, terminator)
  {
  }

  /** A chunk without a terminator lengthens the line, and one with it ends the line. */
  lemma ChunkGoesOn(was: seq<byte>, rest: seq<byte>, all: seq<byte>, from: nat, l: nat, i: nat, terminator: byte)
    requires Unfinished(was, rest, all, from, terminator) && i <= l <= |rest| && terminator !in rest[..i]
    requires i < l ==> rest[i] == terminator
    ensures was + rest[..l] + rest[l..] == all
    ensures if i == l then Unfinished(was + rest[..l], rest[l..], all, from, terminator)
            else Stops((was + rest[..l])[..|was| + i + 1], from, terminator)
  {
    hide Lacks, Stops;
    MoveChunk(was, rest, l);
    LineGrows(was, from, rest, l, i, terminator);
  }

  lemma FrontOf(a: seq<byte>, n: nat, m: nat)
    requires m <= n <= |a|
    ensures a[..n][..m] == a[..m]
  {
  }

  class BStream {
    const buff: BString
    const src: Source
    var isEOF: bool
    const maxBuffSz: nat

    ghost predicate Valid()
      reads this, buff, src
    {
      buff.Valid() && src.Valid() && 0 < maxBuffSz && (isEOF && src.honest ==> src.rest == [])
    }

    /** The abstract stream: what was read too far, then what is still in the source. */
    ghost function Pending(): seq<byte>
      requires Valid()
      reads this, buff, buff.data, src
    {
      buff.Contents() + src.rest
    }

    /** `bsopen` and `bsbufflength`. */
    constructor (src: Source, maxBuffSz: nat)
      requires src.Valid() && 0 < maxBuffSz
      ensures Valid() && Pending() == src.rest && this.src == src && this.maxBuffSz == maxBuffSz && !isEOF
      ensures fresh(buff) && fresh(buff.data) && buff.Contents() == []
    {
      this.src, this.maxBuffSz, this.isEOF := src, maxBuffSz, false;
      buff := new BString([]);
    }

    /** The caller's string is not part of the stream. */
    ghost predicate Apart(r: BString)
      reads this, buff, r
    {
      r != buff && r.data != buff.data
    }

    /** One direct read behind the end of `r`, and the search for the terminator in it. */
    method ReadChunk(r: BString, terminator: byte) returns (l: int, i: nat)
      requires Valid() && r.Valid() && Apart(r)
      modifies r, r.data, src
      ensures Valid() && r.Valid() && (r.data == old(r.data) || fresh(r.data))
      ensures r.slen == old(r.slen) && r.Contents() == old(r.Contents()) && r.slen + l < r.data.Length
      ensures l <= maxBuffSz && (src.honest && l <= 0 ==> old(src.rest) == [])
      ensures if l <= 0 then src.rest == old(src.rest) else l <= |old(src.rest)| && src.rest == old(src.rest)[l..]
      ensures l > 0 ==> r.data[..r.slen + l] == old(r.Contents()) + old(src.rest)[..l]
      ensures src.refusals == old(src.refusals) + if l <= 0 then 1 else 0
      ensures l > 0 ==> i <= l && (i < l ==> old(src.rest)[i] == terminator) && terminator !in old(src.rest)[..i]
    {
      ghost var was, rest := r.Contents(), src.rest;
      l := ReadBehind(r);
      i := 0;
      if l > 0 {
        i := ScanBehind(r, l, terminator);
        FoundInRest(was, rest, l, i, terminator);
      }
    }

    /** Make room behind the end of `r` and read into it. */
    method ReadBehind(r: BString) returns (l: int)
      requires Valid() && r.Valid() && Apart(r)
      modifies r, r.data, src
      ensures Valid() && r.Valid() && (r.data == old(r.data) || fresh(r.data))
      ensures r.slen == old(r.slen) && r.Contents() == old(r.Contents()) && r.slen + l < r.data.Length
      ensures l <= maxBuffSz && (src.honest && l <= 0 ==> old(src.rest) == [])
      ensures if l <= 0 then src.rest == old(src.rest) else l <= |old(src.rest)| && src.rest == old(src.rest)[l..]
      ensures l > 0 ==> r.data[..r.slen + l] == old(r.Contents()) + old(src.rest)[..l]
      ensures src.refusals == old(src.refusals) + if l <= 0 then 1 else 0
    {
      r.Alloc(r.slen + maxBuffSz + 1);
      ghost var mid := r.data[..];
      l := src.Read(r.data, r.slen, maxBuffSz);
      assert forall k :: 0 <= k < r.slen ==> r.data[k] == mid[k];
    }

    /** Search the `l` bytes behind the end of `r`, which stay as they are. */
    method ScanBehind(r: BString, l: nat, terminator: byte) returns (i: nat)
      requires r.Valid() && r.slen + l < r.data.Length
      modifies r.data
      ensures r.Valid() && r.Contents() == old(r.Contents()) && r.data[..r.slen + l] == old(r.data[..r.slen + l])
      ensures i <= l && Found(r.data[..r.slen + l], r.slen, i, terminator)
    {
      i := ScanTo(r.data, r.slen, l, terminator);
    }

    /** The direct reads of `bsreadlna`, until a chunk holds the terminator or none comes. The last
        chunk of `l` bytes stands behind the end of `r`, its terminator at `i`. */
    method ReadChunks(r: BString, terminator: byte) returns (l: int, i: nat)
      requires Valid() && r.Valid() && Apart(r)
      modifies r, r.data, src
      ensures Valid() && r.Valid() && Apart(r) && (r.data == old(r.data) || fresh(r.data))
      ensures l <= maxBuffSz && r.slen + l < r.data.Length && (l <= 0 && src.honest ==> src.rest == [])
      ensures r.data[..r.slen + if l > 0 then l else 0] + src.rest == old(r.Contents() + src.rest)
      ensures old(r.slen) <= r.slen && (l > 0 ==> i < l && Stops(r.data[..r.slen + i + 1], old(r.slen), terminator))
      ensures l <= 0 ==> Lacks(r.Contents(), old(r.slen), terminator)
      ensures src.refusals == old(src.refusals) + if l <= 0 then 1 else 0
    {
      hide Stops, Lacks, Unfinished;
      ghost var all, from := r.Contents() + src.rest, r.slen;
      NotBegun(r.Contents(), src.rest, terminator);
      while true
        invariant Valid() && r.Valid() && Apart(r) && (r.data == old(r.data) || fresh(r.data))
        invariant Unfinished(r.Contents(), src.rest, all, from, terminator) && src.refusals == old(src.refusals)
        decreases |src.rest|
      {
        ghost var was, rest := r.Contents(), src.rest;
        NotFinished(was, rest, all, from, terminator);
        l, i := ReadChunk(r, terminator);
        if l <= 0 { return; }
        ChunkGoesOn(was, rest, all, from, l, i, terminator);
        if i < l {
          FrontOf(r.data[..], r.slen + l, r.slen + i + 1);
          return;
        }
        r.slen := r.slen + l;
      }
    }

    /** Through the first terminator or to the end of the source, what was read too far going to the
        buffer. */
    method ReadLineDirect(r: BString, terminator: byte)
      requires Valid() && r.Valid() && Apart(r) && maxBuffSz < buff.data.Length
      modifies r, r.data, src, this, buff`slen, buff.data
      ensures Valid() && r.Valid() && Apart(r) && (r.data == old(r.data) || fresh(r.data))
      ensures r.Contents() + Pending() == old(r.Contents() + src.rest)
      ensures old(r.slen) <= r.slen
      ensures src.refusals == old(src.refusals) || src.refusals == old(src.refusals) + 1
      ensures if src.refusals == old(src.refusals) then Stops(r.Contents(), old(r.slen), terminator)
              else isEOF && buff.slen == 0 && Lacks(r.Contents(), old(r.slen), terminator)
      ensures isEOF != old(isEOF) ==> isEOF && Lacks(r.Contents(), old(r.slen), terminator)
    {
      hide Stops, Lacks;
      var l, i := ReadChunks(r, terminator);
      ghost var end, rest := r.data[..r.slen + if l > 0 then l else 0], src.rest;
      if l <= 0 {
        r.data[r.slen], buff.slen, isEOF := 0, 0, true;
        assert r.Contents() == end && buff.Contents() == [];
        return;
      }
      PushBack(r, i + 1, l);
      Regroup(r.Contents(), buff.Contents(), rest);
    }

    /** Terminator found: the first `i` of `l` new bytes belong to `r`, the others to the buffer. */
    method PushBack(r: BString, i: nat, l: nat)
      requires buff.Valid() && Apart(r) && i <= l < buff.data.Length && r.slen + l < r.data.Length
      modifies r`slen, r.data, buff`slen, buff.data
      ensures buff.Valid() && r.Valid()
      ensures r.slen == old(r.slen) + i && r.Contents() == old(r.data[..r.slen + i])
      ensures r.Contents() + buff.Contents() == old(r.data[..r.slen + l])
    {
      ghost var before := r.data[..];
      r.slen := r.slen + i;
      buff.slen := l - i;
      CopyBytes(buff.data, 0, r.data[r.slen..r.slen + (l - i)]);
      r.data[r.slen] := 0;
    }

    /** The search of the buffer at the start of `bsreadlna`: on a hit the line is moved, else all that
        was buffered is appended to `r` (and still stands in the buffer). */
    method ReadLineBuffered(r: BString, terminator: byte) returns (hit: bool)
      requires Valid() && r.Valid() && Apart(r)
      modifies r, r.data, buff, buff.data
      ensures Valid() && r.Valid() && Apart(r) && maxBuffSz < buff.data.Length
      ensures (r.data == old(r.data) || fresh(r.data)) && (buff.data == old(buff.data) || fresh(buff.data))
      ensures hit ==> Moved(old(r.Contents()), r.Contents(), old(Pending()), Pending())
      ensures hit ==> Stops(r.Contents(), old(r.slen), terminator)
      ensures !hit ==> r.Contents() == old(r.Contents() + buff.Contents()) && terminator !in old(buff.Contents())
    {
      ghost var r0, b0, rest := r.Contents(), buff.Contents(), src.rest;
      hide Moved, Stops;
      var i := ScanBuffer(terminator);
      hit := i < buff.slen;
      if hit {
        TakeBuffered(r, i + 1);
        BufferedLine(r0, b0, rest, i, terminator);
      } else {
        r.Append(buff.data[..buff.slen]);
      }
    }

    method ScanBuffer(terminator: byte) returns (i: nat)
      requires buff.Valid()
      modifies buff, buff.data
      ensures buff.Valid() && buff.Contents() == old(buff.Contents()) && maxBuffSz < buff.data.Length
      ensures buff.data == old(buff.data) || fresh(buff.data)
      ensures i <= buff.slen && (i < buff.slen ==> buff.Contents()[i] == terminator)
      ensures terminator !in buff.Contents()[..i]
    {
      buff.Alloc(maxBuffSz + 1);
      ghost var s := buff.Contents();
      i := ScanTo(buff.data, 0, buff.slen, terminator);
      assert buff.Contents() == s;
    }

    /** Append the first `n` buffered bytes to `r` and delete them from the buffer. */
    method TakeBuffered(r: BString, n: nat)
      requires buff.Valid() && r.Valid() && Apart(r) && n <= buff.slen
      modifies r, r.data, buff`slen, buff.data
      ensures buff.Valid() && r.Valid() && buff.data == old(buff.data) && (r.data == old(r.data) || fresh(r.data))
      ensures r.Contents() == old(r.Contents()) + old(buff.Contents())[..n]
      ensures buff.Contents() == old(buff.Contents())[n..]
    {
      ghost var s := buff.Contents();
      assert buff.data[..n] == s[..n];
      r.Append(buff.data[..n]);
      assert buff.Contents() == s;
      buff.DeleteFront(n);
    }

    /** `bsreadlna`: move the bytes through the first terminator from the stream to the end of `r`, or all
        that comes until a read delivers nothing. */
    method ReadLine(r: BString, terminator: byte) returns (code: int)
      requires Valid() && r.Valid() && Apart(r)
      modifies r, r.data, this, src, buff, buff.data
      ensures Valid() && r.Valid() && Apart(r)
      ensures (r.data == old(r.data) || fresh(r.data)) && (buff.data == old(buff.data) || fresh(buff.data))
      ensures Moved(old(r.Contents()), r.Contents(), old(Pending()), Pending())
      ensures src.refusals == old(src.refusals) || src.refusals == old(src.refusals) + 1
      ensures if src.refusals == old(src.refusals) then Stops(r.Contents(), old(r.slen), terminator)
              else isEOF && buff.slen == 0 && Lacks(r.Contents(), old(r.slen), terminator)
      ensures isEOF != old(isEOF) ==> isEOF && Lacks(r.Contents(), old(r.slen), terminator)
      ensures src.honest ==> r.Contents() == old(r.Contents()) + Line(old(Pending()), terminator)
      ensures code == if old(r.slen) < r.slen then BSTR_OK else BSTR_ERR
    {
      hide Stops;
      ghost var r0, p0, b0, rest := r.Contents(), Pending(), buff.Contents(), src.rest;
      var rlo := r.slen;
      var hit := ReadLineBuffered(r, terminator);
      if !hit {
        ReadLineDirect(r, terminator);
        LineDone(r0, b0, rest, r.Contents(), Pending(), terminator);
      }
      if src.honest { LineOfMove(r0, r.Contents(), p0, Pending(), terminator); }
      code := if r.slen == rlo then BSTR_ERR else BSTR_OK;
    }

    /** One read into the buffer, of at most `want` bytes. */
    method Refill(want: nat) returns (l: int)
      requires Valid() && maxBuffSz < buff.data.Length && 0 < want
      modifies src, buff.data
      ensures Valid() && l <= maxBuffSz && (l <= 0 && src.honest ==> src.rest == [])
      ensures l > 0 ==> |src.rest| < |old(src.rest)| && buff.data[..l] + src.rest == old(src.rest)
      ensures l <= 0 ==> [] + src.rest == old(src.rest)
      ensures src.refusals == old(src.refusals) + if l <= 0 then 1 else 0
    {
      l := src.Read(buff.data, 0, if want > maxBuffSz then maxBuffSz else want);
      if l > 0 { assert buff.data[..l] == old(src.rest)[..l]; }
    }

    /** The loop of `bsreada`, which fetches through the buffer until `r` is `n` bytes long. */
    method ReadThrough(r: BString, n: nat)
      requires Valid() && r.Valid() && Apart(r) && maxBuffSz < buff.data.Length && r.slen < n
      modifies r, r.data, this, src, buff`slen, buff.data
      ensures Valid() && r.Valid() && Apart(r)
      ensures buff.data == old(buff.data) && (r.data == old(r.data) || fresh(r.data))
      ensures Moved(old(r.Contents()), r.Contents(), old(Pending()), Pending())
      ensures if src.refusals == old(src.refusals) then r.slen == n && isEOF == old(isEOF)
              else src.refusals == old(src.refusals) + 1 && r.slen < n && isEOF && buff.slen == 0
    {
      hide Moved;
      ghost var r0, p0 := r.Contents(), Pending();
      MovedNothing(r0, p0);
      var l: int := buff.slen;
      while true
        invariant Valid() && r.Valid() && Apart(r) && (r.data == old(r.data) || fresh(r.data))
        invariant r.slen < n && 0 <= l < buff.data.Length && isEOF == old(isEOF) && src.refusals == old(src.refusals)
        invariant Moved(r0, r.Contents(), p0, buff.data[..l] + src.rest)
        decreases |src.rest|
      {
        ghost var b, rest, was := buff.data[..l], src.rest, r.Contents();
        if l + r.slen >= n {
          var x := n - r.slen;
          buff.slen := l;
          TakeBuffered(r, x);
          MovedMore(r0, was, p0, b, rest, x);
          return;
        }
        r.Append(buff.data[..l]);
        MovedAll(r0, was, p0, b, rest);
        l := Refill(n - r.slen);
        if l <= 0 {
          buff.slen, isEOF := 0, true;
          return;
        }
      }
    }

    /** `bsreada`: move at most `n` bytes from the stream to the end of `r`. With an empty buffer and
        room in `r` a single direct read is made, and a short one is not completed; on every other
        path fewer bytes come only when a read delivers nothing, from an honest source when none are left. */
    method Read(r: BString, n: int) returns (code: int)
      requires Valid() && r.Valid() && Apart(r)
      modifies r, r.data, this, src, buff, buff.data
      ensures Valid() && r.Valid() && Apart(r)
      ensures (r.data == old(r.data) || fresh(r.data)) && (buff.data == old(buff.data) || fresh(buff.data))
      ensures Moved(old(r.Contents()), r.Contents(), old(Pending()), Pending())
      ensures old(r.slen) <= r.slen && code == if old(r.slen) < r.slen then BSTR_OK else BSTR_ERR
      ensures n <= 0 ==> r.slen == old(r.slen)
      ensures 0 < n ==> r.slen - old(r.slen) <= n
      ensures isEOF != old(isEOF) ==> isEOF && r.slen - old(r.slen) < n
      ensures 0 < n && old(Direct(r, n)) ==>
                r.slen - old(r.slen) == if old(src.NextSize(n)) > 0 then old(src.NextSize(n)) else 0
      ensures 0 < n && !old(Direct(r, n)) && r.slen - old(r.slen) < n ==>
                isEOF && (src.refusals == old(src.refusals) + 1 || old(buff.slen == 0 && isEOF))
      ensures 0 < n && !old(Direct(r, n)) && src.honest ==> r.slen - old(r.slen) == Min(n, |old(Pending())|)
    {
      hide Moved;
      MovedNothing(r.Contents(), Pending());
      if n <= 0 || (buff.slen == 0 && isEOF) { return BSTR_ERR; }
      var rlo := r.slen;
      if buff.slen == 0 && r.data.Length > n + r.slen {
        ReadDirect(r, n);
      } else {
        ghost var r0, p0 := r.Contents(), Pending();
        buff.Alloc(maxBuffSz + 1);
        assert r.Contents() == r0 && Pending() == p0;
        ReadThrough(r, n + r.slen);
        MovedLength(r0, r.Contents(), p0, Pending());
      }
      code := if r.slen == rlo then BSTR_ERR else BSTR_OK;
    }

    ghost predicate Direct(r: BString, n: int)
      reads this, buff, r
    {
      buff.slen == 0 && !isEOF && r.data.Length > n + r.slen
    }

    /** The single direct read of `bsreada`. */
    method ReadDirect(r: BString, n: nat)
      requires Valid() && r.Valid() && Apart(r) && buff.slen == 0 && 0 < n && n + r.slen < r.data.Length
      modifies r`slen, r.data, src, this
      ensures Valid() && r.Valid()
      ensures Moved(old(r.Contents()), r.Contents(), old(Pending()), Pending())
      ensures r.slen - old(r.slen) == if old(src.NextSize(n)) > 0 then old(src.NextSize(n)) else 0
      ensures isEOF == (old(isEOF) || r.slen == old(r.slen))
      ensures src.refusals == old(src.refusals) + if r.slen == old(r.slen) then 1 else 0
    {
      ghost var r0, rest := r.Contents(), src.rest;
      var l := src.Read(r.data, r.slen, n);
      if l <= 0 {
        isEOF := true;
        assert r.Contents() == r0;
        return;
      }
      r.slen := r.slen + l;
      r.data[r.slen] := 0;
      assert r.Contents() == r0 + rest[..l];
      MoveChunk(r0, rest, l);
      Regroup(r.Contents(), [], src.rest);
    }

    /** `bsunread`: put bytes back in front of the stream. */
    method Unread(b: seq<byte>)
      requires Valid()
      modifies buff, buff.data
      ensures Valid() && (buff.data == old(buff.data) || fresh(buff.data))
      ensures Pending() == b + old(Pending())
    {
      ghost var s := buff.Contents();
      buff.InsertFront(b);
      Regroup(b, s, src.rest);
    }
  }

  /** A direct read that comes back short: two bytes are asked for, three are left, one is delivered. */
  method ShortDirectRead() returns (got: seq<byte>, code: int)
    ensures got == [1] && code == BSTR_OK
  {
    var src := new Source([1, 2, 3], [1]);
    var s := new BStream(src, 16);
    var r := new BString([]);
    r.Alloc(8);
    code := s.Read(r, 2);
    assert r.Contents() <= [1, 2, 3];
    got := r.data[..r.slen];
  }

  datatype Request = LineTo(terminator: byte) | Block(n: int) | Back(count: nat)

  /** What was delivered so far, and what is pending. */
  datatype Point = Point(delivered: seq<byte>, pending: seq<byte>)

  /** What a request does with an honest source. A block read by a single direct read has the size that
      the source granted; `Back` returns the last bytes delivered. */
  function Served(request: Request, grant: Option<int>, p: Point): Point {
    match request
    case LineTo(t) => Take(p, |Line(p.pending, t)|)
    case Block(n) => Take(p, Min(if n <= 0 then 0 else grant.GetOr(n), |p.pending|))
    case Back(count) =>
      var kept := |p.delivered| - Min(count, |p.delivered|);
      Point(p.delivered[..kept], p.delivered[kept..] + p.pending)
  }

  /** The next `k` bytes move from the stream to the caller. */
  function Take(p: Point, k: int): Point {
    var n := if k < 0 then 0 else Min(k, |p.pending|);
    Point(p.delivered + p.pending[..n], p.pending[n..])
  }

  function AllServed(requests: seq<Request>, grants: seq<Option<int>>, p: Point): Point
    requires |grants| == |requests|
  {
    if requests == [] then p
    else
      var n := |requests| - 1;
      Served(requests[n], grants[n], AllServed(requests[..n], grants[..n], p))
  }

  ghost function PointOf(s: BStream, r: BString): Point
    requires s.Valid() && r.Valid()
    reads s, s.buff, s.buff.data, s.src, r, r.data
  {
    Point(r.Contents(), s.Pending())
  }

  /** Any mix of calls: what was delivered followed by what is pending is always the original stream,
      and with an honest source it is exactly what the requests ask for, up to the sizes that the
      source granted to direct reads. */
  method Serve(s: BStream, r: BString, requests: seq<Request>) returns (ghost grants: seq<Option<int>>)
    requires s.Valid() && r.Valid() && s.Apart(r)
    modifies r, r.data, s, s.src, s.buff, s.buff.data
    ensures s.Valid() && r.Valid()
    ensures r.Contents() + s.Pending() == old(r.Contents() + s.Pending())
    ensures |grants| == |requests|
    ensures forall i :: 0 <= i < |requests| && grants[i].Some? ==>
              requests[i].Block? && grants[i].value <= requests[i].n
    ensures s.src.honest ==> PointOf(s, r) == AllServed(requests, grants, old(PointOf(s, r)))
  {
    hide Served;
    ghost var all, start := r.Contents() + s.Pending(), PointOf(s, r);
    grants := [];
    assert requests[..0] == [];
    for i := 0 to |requests|
      invariant s.Valid() && r.Valid() && s.Apart(r)
      invariant (r.data == old(r.data) || fresh(r.data)) && (s.buff.data == old(s.buff.data) || fresh(s.buff.data))
      invariant r.Contents() + s.Pending() == all
      invariant |grants| == i
      invariant forall j :: 0 <= j < i && grants[j].Some? ==> requests[j].Block? && grants[j].value <= requests[j].n
      invariant s.src.honest ==> PointOf(s, r) == AllServed(requests[..i], grants, start)
    {
      ghost var grant := ServeOne(s, r, requests[i]);
      ServedMore(requests, i, grants, grant, start);
      grants := grants + [grant];
    }
    assert requests[..|requests|] == requests;
  }

  lemma ServedMore(requests: seq<Request>, i: nat, grants: seq<Option<int>>, grant: Option<int>, p: Point)
    requires i < |requests| && |grants| == i
    ensures AllServed(requests[..i + 1], grants + [grant], p) ==
            Served(requests[i], grant, AllServed(requests[..i], grants, p))
  {
    assert requests[..i + 1][..i] == requests[..i] && (grants + [grant])[..i] == grants;
  }

  method ServeOne(s: BStream, r: BString, request: Request) returns (ghost grant: Option<int>)
    requires s.Valid() && r.Valid() && s.Apart(r)
    modifies r, r.data, s, s.src, s.buff, s.buff.data
    ensures s.Valid() && r.Valid() && s.Apart(r)
    ensures (r.data == old(r.data) || fresh(r.data)) && (s.buff.data == old(s.buff.data) || fresh(s.buff.data))
    ensures r.Contents() + s.Pending() == old(r.Contents() + s.Pending())
    ensures grant.Some? ==> request.Block? && grant.value <= request.n
    ensures s.src.honest ==> PointOf(s, r) == Served(request, grant, old(PointOf(s, r)))
  {
    hide Take, Line;
    ghost var r0, p0 := r.Contents(), s.Pending();
    grant := None;
    match request
    case LineTo(t) =>
      var _ := s.ReadLine(r, t);
      MovedTakes(r0, r.Contents(), p0, s.Pending());
    case Block(n) =>
      if 0 < n && s.Direct(r, n) { grant := Some(s.src.NextSize(n)); }
      var _ := s.Read(r, n);
      MovedTakes(r0, r.Contents(), p0, s.Pending());
    case Back(count) =>
      GiveBack(s, r, count);
  }

  /** The caller returns the last bytes it was given. */
  method GiveBack(s: BStream, r: BString, count: nat)
    requires s.Valid() && r.Valid() && s.Apart(r)
    modifies r`slen, s.buff, s.buff.data
    ensures s.Valid() && r.Valid() && s.Apart(r) && (s.buff.data == old(s.buff.data) || fresh(s.buff.data))
    ensures r.Contents() + s.Pending() == old(r.Contents() + s.Pending())
    ensures PointOf(s, r) == Served(Back(count), None, old(PointOf(s, r)))
  {
    ghost var r0, p0 := r.Contents(), s.Pending();
    var k := Min(count, r.slen);
    var b := r.data[r.slen - k..r.slen];
    r.slen := r.slen - k;
    assert r.Contents() + b == r0;
    s.Unread(b);
    Regroup(r.Contents(), b, p0);
  }

  lemma MovedTakes(r0: seq<byte>, r1: seq<byte>, p0: seq<byte>, p1: seq<byte>)
    requires Moved(r0, r1, p0, p1)
    ensures Point(r1, p1) == Take(Point(r0, p0), |r1| - |r0|)
  {
    var k := |r1| - |r0|;
    assert r1 == (r1 + p1)[..|r1|] == r0 + p0[..k];
    assert p1 == (r1 + p1)[|r1|..] == p0[k..];
  }
}
