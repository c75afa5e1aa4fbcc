/** `ByteArray`: a growing list of fixed-size blocks with a cursor that behaves as one flat byte
    string. The linked list is the sequence `blocks`; `cur` is the number of the cursor's block, and
    `|blocks|` stands for the null pointer past the last one. */
module ByteArrays {
  import opened Bytes

  /** Where block `i` starts in the flat string. */
  ghost function Start(i: nat, size: nat): nat {
    if i == 0 then 0 else Start(i - 1, size) + size
  }

  lemma StartNext(i: nat, size: nat)
    ensures Start(i + 1, size) == Start(i, size) + size
  {
  }

  lemma {:induction false} StartApart(i: nat, j: nat, size: nat)
    requires i < j
    ensures Start(i, size) + size <= Start(j, size)
  {
    if i + 1 < j { StartApart(i, j - 1, size); }
  }

  /** The offset the source computes with `%` is the distance from the start of the block. */
  lemma {:induction false} OffsetIsRemainder(i: nat, off: nat, size: nat)
    requires off < size
    ensures (Start(i, size) + off) % size == off && (Start(i, size) + off) / size == i
  {
    if i > 0 {
      OffsetIsRemainder(i - 1, off, size);
      AddOneBlock(Start(i - 1, size) + off, size);
    }
  }

  lemma AddOneBlock(x: nat, size: nat)
    requires 0 < size
    ensures (x + size) % size == x % size && (x + size) / size == x / size + 1
  {
    var q, r := x / size, x % size;
    assert x + size == (q + 1) * size + r;
    DivUnique(x + size, size, q + 1, r);
  }

  lemma DivUnique(x: nat, size: nat, q: nat, r: nat)
    requires 0 < size && x == q * size + r && r < size
    ensures x / size == q && x % size == r
  {
    var q' := x / size;
    var r' := x - q' * size;
    assert 0 <= r' < size && r' == x % size;
    assert (q - q') * size == q * size - q' * size;
    assert (q' - q) * size == q' * size - q * size;
    if q > q' {
      AtLeastOnce(q - q', size);
    } else if q < q' {
      AtLeastOnce(q' - q, size);
    }
  }

  lemma {:induction false} StartIsProduct(i: nat, size: nat)
    ensures Start(i, size) == i * size
  {
    if i > 0 {
      StartIsProduct(i - 1, size);
      assert (i - 1) * size + size == i * size;
    }
  }

  /** `ceil (1.0 * n / size)` blocks are enough for `n` bytes. */
  function BlocksFor(n: nat, size: nat): (count: nat)
    requires 0 < size
  {
    (n + size - 1) / size
  }

  lemma BlocksForCovers(n: nat, size: nat)
    requires 0 < size
    ensures n <= Start(BlocksFor(n, size), size) < n + size
  {
    var count := (n + size - 1) / size;
    StartIsProduct(count, size);
    assert n + size - 1 == count * size + (n + size - 1) % size;
  }

  lemma AtLeastOnce(n: nat, size: nat)
    requires 0 < n
    ensures size <= n * size
  {
  }

  /** Capacity for `end` bytes: as before if that was enough, else less than a block more. */
  predicate Tight(before: nat, after: nat, end: nat, size: nat) {
    if end <= before then after == before else end <= after < end + size
  }

  lemma TightTwice(a: nat, b: nat, c: nat, end1: nat, end2: nat, size: nat)
    requires Tight(a, b, end1, size) && Tight(b, c, end2, size) && end1 <= end2
    ensures Tight(a, c, end2, size)
  {
  }

  /** Bytes that end at `end` fill the capacity exactly when they reach the old one and end at a
      block boundary. */
  lemma FillsCapacity(i: nat, j: nat, end: nat, size: nat)
    requires 0 < size && Tight(Start(i, size), Start(j, size), end, size)
    ensures end == Start(j, size) <==> Start(i, size) <= end && end % size == 0
  {
    OffsetIsRemainder(j, 0, size);
    if Start(i, size) < end < Start(j, size) {
      if j > 0 { OffsetIsRemainder(j - 1, end - Start(j - 1, size), size); }
    }
  }

  /** A window into the block list, as in `iovec`. */
  datatype Window = Window(block: nat, off: nat, len: nat)

  /** How a read ends: done, refused, or with the null block pointer followed. */
  datatype ReadResult = Ok | TooShort | FollowsNull

  class ByteArray {
    const baseSize: nat
    var blocks: seq<array<byte>>
    var position: nat
    var size: nat
    var capacity: nat
    var cur: nat
    /** The flat contents, capacity included. */
    ghost var bytes: seq<byte>

    ghost predicate Valid()
      reads this, blocks
    {
      Layout() && Cursor() && position <= size <= capacity
    }

    /** Distinct blocks of equal size that spell the flat string. */
    ghost predicate Layout()
      reads `blocks, `bytes, `capacity, blocks
    {
      && 0 < baseSize && 0 < |blocks| && |bytes| == capacity == Start(|blocks|, baseSize)
      && (forall i :: 0 <= i < |blocks| ==> blocks[i].Length == baseSize)
      && (forall i, j :: 0 <= i < j < |blocks| ==> blocks[i] != blocks[j])
      && (forall i, o :: 0 <= i < |blocks| && 0 <= o < baseSize ==> Holds(i, o))
    }

    /** The cursor points into its block, and past the last block only at full capacity. */
    ghost predicate Cursor()
      reads `blocks, `position, `capacity, `cur
    {
      && cur <= |blocks| && Start(cur, baseSize) <= position < Start(cur, baseSize) + baseSize
      && (cur == |blocks| ==> position == capacity)
    }

    /** Byte `o` of block `i` stands at its place in the flat string. */
    ghost predicate Holds(i: nat, o: nat)
      requires i < |blocks| && o < blocks[i].Length
      reads `blocks, `bytes, blocks
    {
      Start(i, baseSize) + o < |bytes| && blocks[i][o] == bytes[Start(i, baseSize) + o]
    }

    /** The cursor's block is block number `position / baseSize`, null exactly at full capacity. */
    lemma CursorBlock()
      requires Valid()
      ensures cur == position / baseSize && (cur == |blocks| <==> position == capacity)
    {
      OffsetIsRemainder(cur, position - Start(cur, baseSize), baseSize);
      if cur < |blocks| { StartApart(cur, |blocks|, baseSize); }
    }

    constructor (base: nat)
      requires 0 < base
      ensures Valid() && fresh(blocks) && baseSize == base && position == 0 && size == 0 && capacity == base
    {
      baseSize := base;
      var block := new byte[base](_ => 0);
      blocks, position, size, capacity, cur, bytes := [block], 0, 0, base, 0, block[..];
      new;
      assert Start(1, base) == base;
    }

    /** `memcpy` into one block. */
    method Poke(i: nat, off: nat, s: seq<byte>)
      requires Layout() && i < |blocks| && off + |s| <= baseSize
      modifies `bytes, blocks[i]
      ensures Layout() && Overwritten(old(bytes), bytes, Start(i, baseSize) + off, s)
    {
      StartApart(i, |blocks|, baseSize);
      var block := blocks[i];
      forall k | 0 <= k < |s| {
        block[off + k] := s[k];
      }
      ghost var at := Start(i, baseSize) + off;
      bytes := seq(|bytes|, k requires 0 <= k < |old(bytes)| =>
                     if at <= k < at + |s| then s[k - at] else old(bytes)[k]);
      forall j, o | 0 <= j < |blocks| && 0 <= o < baseSize
        ensures Holds(j, o)
      {
        assert old(Holds(j, o));
        if j < i { StartApart(j, i, baseSize); }
        if i < j { StartApart(i, j, baseSize); }
      }
    }

    method AppendBlock()
      requires Layout() && Cursor()
      modifies `blocks, `bytes, `capacity
      ensures Layout() && Cursor()
      ensures |blocks| == |old(blocks)| + 1 && old(blocks) <= blocks && fresh(blocks[|old(blocks)|])
      ensures old(bytes) <= bytes && capacity == old(capacity) + baseSize
    {
      var block := new byte[baseSize](_ => 0);
      ghost var n := |blocks|;
      blocks, bytes, capacity := blocks + [block], bytes + block[..], capacity + baseSize;
      forall i, o | 0 <= i < |blocks| && 0 <= o < baseSize
        ensures Holds(i, o)
      {
        if i < n {
          assert old(Holds(i, o));
        }
      }
      assert cur < n ==> Start(cur, baseSize) + baseSize <= old(capacity) by {
        if cur < n { StartApart(cur, n, baseSize); }
      }
    }

    /** `addCapacity`: room for `n` more bytes after the cursor. */
    method AddCapacity(n: nat)
      requires Layout() && Cursor()
      modifies `blocks, `bytes, `capacity, `cur
      ensures Layout() && Cursor()
      ensures position + n <= capacity && Tight(old(capacity), capacity, position + n, baseSize)
      ensures old(bytes) <= bytes && old(blocks) <= blocks
      ensures forall i :: |old(blocks)| <= i < |blocks| ==> fresh(blocks[i])
    {
      CursorInCapacity();
      var oldCap := capacity - position;
      if n == 0 || oldCap >= n { return; }
      var count := BlocksFor(n - oldCap, baseSize);
      BlocksForCovers(n - oldCap, baseSize);
      ghost var before := capacity;
      var first := |blocks|;
      for i := 0 to count
        invariant Layout() && Cursor() && cur == old(cur)
        invariant capacity == before + Start(i, baseSize)
        invariant old(bytes) <= bytes && old(blocks) <= blocks
        invariant forall i :: |old(blocks)| <= i < |blocks| ==> fresh(blocks[i])
      {
        AppendBlock();
      }
      if oldCap == 0 {
        assert cur == first by {
          if old(cur) < first { StartApart(old(cur), first, baseSize); }
        }
        cur := first;
      }
    }

    lemma CursorInCapacity()
      requires Layout() && Cursor()
      ensures position <= capacity
    {
      if cur < |blocks| { StartApart(cur, |blocks|, baseSize); }
    }

    /** `write`, across any number of block boundaries. */
    method Write(buf: seq<byte>)
      requires Valid()
      modifies this, blocks
      ensures Valid() && old(blocks) <= blocks && (forall i :: |old(blocks)| <= i < |blocks| ==> fresh(blocks[i]))
      ensures position == old(position) + |buf|
      ensures size == if old(size) < position then position else old(size)
      ensures |old(bytes)| <= |bytes| && Flatly(old(bytes), bytes, old(position), buf)
      ensures Tight(old(capacity), capacity, position, baseSize)
    {
      if |buf| == 0 { return; }
      AddCapacity(|buf|);
      ghost var before := bytes;
      CopyIn(buf);
      if position > size {
        size := position;
      }
    }

    /** The copy loop of `write`. */
    method CopyIn(buf: seq<byte>)
      requires Layout() && Cursor() && position + |buf| <= capacity && 0 < |buf|
      modifies `bytes, `position, `cur, blocks
      ensures Layout() && Cursor() && position == old(position) + |buf|
      ensures Overwritten(old(bytes), bytes, old(position), buf)
    {
      hide Overwritten, ByteArray.Layout, Start;
      ghost var start := position;
      RoomInBlock(|buf|);
      OverwriteNothing(bytes, start);
      OffsetIsRemainder(cur, position - Start(cur, baseSize), baseSize);
      var npos := position % baseSize;
      var bpos := 0;
      while bpos < |buf|
        invariant Layout() && bpos <= |buf| && position == start + bpos && start + |buf| <= capacity
        invariant blocks == old(blocks) && Cursor()
        invariant bpos < |buf| ==> cur < |blocks| && blocks[cur].Length == baseSize
        invariant bpos < |buf| ==> npos == position - Start(cur, baseSize)
        invariant Overwritten(old(bytes), bytes, start, buf[..bpos])
      {
        var ncap := blocks[cur].Length - npos;
        var n := if ncap >= |buf| - bpos then |buf| - bpos else ncap;
        ghost var mid := bytes;
        Poke(cur, npos, buf[bpos..bpos + n]);
        OverwriteMore(old(bytes), mid, bytes, start, buf[..bpos], buf[bpos..bpos + n]);
        assert buf[..bpos] + buf[bpos..bpos + n] == buf[..bpos + n];
        npos := MoveOn(n, npos);
        bpos := bpos + n;
        if bpos < |buf| { RoomInBlock(|buf| - bpos); }
      }
      assert buf[..bpos] == buf;
    }

    /** Move the cursor by at most the rest of its block; at the end of the block it goes to the next. */
    method MoveOn(m: nat, npos: nat) returns (npos': nat)
      requires Layout() && Cursor() && cur < |blocks| && npos == position - Start(cur, baseSize)
      requires npos + m <= baseSize
      modifies `position, `cur
      ensures Layout() && Cursor() && position == old(position) + m && npos' == position - Start(cur, baseSize)
    {
      StartNext(cur, baseSize);
      position, npos' := position + m, npos + m;
      if npos' == blocks[cur].Length {
        cur, npos' := cur + 1, 0;
      }
    }

    /** With bytes left before the capacity, the cursor points at a block. */
    lemma RoomInBlock(n: nat)
      requires Layout() && 0 < n && position + n <= capacity
      requires cur <= |blocks| && Start(cur, baseSize) <= position
      ensures cur < |blocks| && blocks[cur].Length == baseSize && |bytes| == capacity
    {
    }

    /** `read`. The last copy takes the whole rest of its block, so bytes behind the `n` asked for are
        written too. Reading no byte at all with the cursor at full capacity follows the null pointer. */
    method Read(dest: array<byte>, n: nat) returns (r: ReadResult)
      requires Valid() && dest !in blocks
      requires position + n <= size ==> n + Overrun(position, n, baseSize) <= dest.Length
      modifies `position, `cur, dest
      ensures Valid() && bytes == old(bytes)
      ensures r.TooShort? <==> old(position) + n > size
      ensures r.FollowsNull? <==> n == 0 && old(position) == capacity
      ensures position == old(position) + if r.Ok? then n else 0
      ensures !r.Ok? ==> dest[..] == old(dest[..])
      ensures r.Ok? ==> Copied(old(dest[..]), dest[..], bytes, old(position), n + Overrun(old(position), n, baseSize))
    {
      if n > size - position { return TooShort; }
      CursorBlock();
      if cur == |blocks| && n == 0 { return FollowsNull; }
      if n > 0 {
        CopyAllOut(dest, n);
      } else {
        CopiedNothing(dest[..], bytes, position);
      }
      r := Ok;
    }

    /** The copy loop of `read`. */
    method CopyAllOut(dest: array<byte>, n: nat)
      requires Layout() && Cursor() && dest !in blocks && n + Overrun(position, n, baseSize) <= dest.Length
      requires 0 < n && position + n <= capacity
      modifies `position, `cur, dest
      ensures Layout() && Cursor() && position == old(position) + n
      ensures Copied(old(dest[..]), dest[..], bytes, old(position), n + Overrun(old(position), n, baseSize))
    {
      hide ByteArray.Layout, Start, Overwritten, Overrun, Copied;
      ghost var start, total := position, n + Overrun(position, n, baseSize);
      RoomInBlock(n);
      OffsetIsRemainder(cur, position - Start(cur, baseSize), baseSize);
      var npos, bpos := position % baseSize, 0;
      ghost var copied := 0;
      CopiedNothing(dest[..], bytes, start);
      while bpos < n
        invariant Layout() && bpos <= n && position == start + bpos && Cursor()
        invariant bpos < n ==> cur < |blocks| && blocks[cur].Length == baseSize
        invariant bpos < n ==> npos == position - Start(cur, baseSize)
        invariant copied == if bpos < n then bpos else total
        invariant Copied(old(dest[..]), dest[..], bytes, start, copied)
      {
        var ncap := blocks[cur].Length - npos;
        var m := if ncap >= n - bpos then n - bpos else ncap;
        if ncap >= n - bpos { OverrunIs(cur, start, n, baseSize); }
        CopyRest(dest, old(dest[..]), bpos, npos, start);
        copied := bpos + ncap;
        npos := MoveOn(m, npos);
        bpos := bpos + m;
        if bpos < n { RoomInBlock(n - bpos); }
      }
    }

    /** Copy what is left of the cursor's block behind the first `bpos` bytes. */
    method CopyRest(dest: array<byte>, ghost first: seq<byte>, bpos: nat, npos: nat, ghost start: nat)
      requires Layout() && dest !in blocks && cur < |blocks|
      requires npos <= baseSize && bpos + baseSize - npos <= dest.Length
      requires Start(cur, baseSize) + npos == start + bpos && Copied(first, dest[..], bytes, start, bpos)
      modifies dest
      ensures Layout() && Copied(first, dest[..], bytes, start, bpos + (baseSize - npos))
    {
      hide ByteArray.Layout, Start, Overwritten, Copied;
      ghost var before := dest[..];
      CopyOut(dest, bpos, cur, npos, baseSize - npos);
      CopiedMore(first, before, dest[..], bytes, start, bpos, baseSize - npos);
    }

    /** `memcpy` out of one block. */
    method CopyOut(dest: array<byte>, at: nat, i: nat, off: nat, n: nat)
      requires Layout() && dest !in blocks && i < |blocks| && off + n <= baseSize && at + n <= dest.Length
      modifies dest
      ensures Layout() && Start(i, baseSize) + off + n <= |bytes|
      ensures Overwritten(old(dest[..]), dest[..], at, bytes[Start(i, baseSize) + off..Start(i, baseSize) + off + n])
    {
      StartApart(i, |blocks|, baseSize);
      var block := blocks[i];
      forall k | 0 <= k < n {
        dest[at + k] := block[off + k];
      }
      forall k | at <= k < at + n
        ensures dest[k] == bytes[Start(i, baseSize) + off + k - at]
      {
        assert old(Holds(i, off + k - at));
      }
      assert forall j, o :: 0 <= j < |blocks| && 0 <= o < baseSize ==> old(Holds(j, o)) ==> Holds(j, o);
    }

    /** `setPosition`. */
    method SetPosition(v: nat) returns (ok: bool)
      requires Valid()
      modifies `position, `size, `cur
      ensures Valid()
      ensures ok <==> v <= capacity
      ensures ok ==> position == v && size == if v > old(size) then v else old(size)
      ensures !ok ==> position == old(position) && size == old(size)
    {
      if v > capacity { return false; }
      position := v;
      if position > size {
        size := position;
      }
      cur := 0;
      var left := v;
      while left > baseSize
        invariant 0 <= left && cur <= |blocks| && v == Start(cur, baseSize) + left
        invariant 0 < left ==> cur < |blocks|
        decreases left
        modifies `cur
      {
        left := left - blocks[cur].Length;
        cur := cur + 1;
      }
      if left == baseSize {
        cur := cur + 1;
      }
      ok := true;
    }

    /** The loop of `getReadBuffers` and `getWriteBuffers`: windows over the next `n` bytes. */
    method CollectWindows(n: nat) returns (ws: seq<Window>)
      requires Layout() && Cursor() && 0 < n && position + n <= capacity
      ensures Covers(ws, |blocks|, baseSize, position) && Total(ws) == n
    {
      hide ByteArray.Layout, Start;
      RoomInBlock(n);
      OffsetIsRemainder(cur, position - Start(cur, baseSize), baseSize);
      var npos, at, left := position % baseSize, cur, n;
      ws := [];
      while left > 0
        invariant 0 <= left <= n && Covers(ws, |blocks|, baseSize, position) && Total(ws) == n - left
        invariant 0 <= at && 0 <= npos
        invariant 0 < left ==> at < |blocks| && blocks[at].Length == baseSize
        invariant 0 < left ==> npos < baseSize && Start(at, baseSize) + npos == position + n - left
      {
        var ncap := blocks[at].Length - npos;
        var iov := Window(at, npos, if ncap >= left then left else ncap);
        CoversAppend(ws, iov, |blocks|, baseSize, position);
        if ncap < left {
          StartNext(at, baseSize);
          BlockWithin(at + 1, left - ncap, position + n - (left - ncap));
          at, npos := at + 1, 0;
        }
        left := left - iov.len;
        ws := ws + [iov];
      }
    }

    lemma BlockWithin(i: nat, left: nat, at: nat)
      requires Layout() && 0 < left && at + left <= capacity && i <= |blocks| && Start(i, baseSize) == at
      ensures i < |blocks| && blocks[i].Length == baseSize
    {
    }

    /** `getReadBuffers`: windows over at most `len` readable bytes. */
    method GetReadBuffers(len: nat) returns (ws: seq<Window>)
      requires Valid()
      ensures Covers(ws, |blocks|, baseSize, position)
      ensures Total(ws) == if len > size - position then size - position else len
    {
      var n := if len > size - position then size - position else len;
      if n == 0 { return []; }
      ws := CollectWindows(n);
    }

    /** `getWriteBuffers`: make room for `len` bytes and return windows over it. */
    method GetWriteBuffers(len: nat) returns (ws: seq<Window>)
      requires Valid()
      modifies `blocks, `bytes, `capacity, `cur
      ensures Valid() && old(bytes) <= bytes && old(blocks) <= blocks
      ensures forall i :: |old(blocks)| <= i < |blocks| ==> fresh(blocks[i])
      ensures Covers(ws, |blocks|, baseSize, position) && Total(ws) == len
      ensures position + len <= capacity && Tight(old(capacity), capacity, position + len, baseSize)
    {
      if len == 0 { return []; }
      AddCapacity(len);
      ws := CollectWindows(len);
    }

    /** The kernel fills the windows in order with the bytes it received. */
    method Scatter(ws: seq<Window>, ghost at: nat, data: seq<byte>)
      requires Layout() && Covers(ws, |blocks|, baseSize, at) && |data| <= Total(ws) && at + Total(ws) <= capacity
      modifies `bytes, blocks
      ensures Layout() && Overwritten(old(bytes), bytes, at, data)
    {
      hide Overwritten, Covers;
      var done := 0;
      OverwriteNothing(bytes, at);
      for i := 0 to |ws|
        invariant Layout() && blocks == old(blocks)
        invariant done == if |data| < Total(ws[..i]) then |data| else Total(ws[..i])
        invariant Overwritten(old(bytes), bytes, at, data[..done])
      {
        WindowAt(ws, i, |blocks|, baseSize, at);
        var m := if ws[i].len < |data| - done then ws[i].len else |data| - done;
        if m > 0 {
          ghost var mid := bytes;
          Poke(ws[i].block, ws[i].off, data[done..done + m]);
          OverwriteMore(old(bytes), mid, bytes, at, data[..done], data[done..done + m]);
          assert data[..done] + data[done..done + m] == data[..done + m];
        }
        done := done + m;
      }
      assert ws[..|ws|] == ws && data[..done] == data;
    }

    /** The kernel sends the first `n` bytes of the windows in order. */
    method Gather(ws: seq<Window>, ghost at: nat, n: nat) returns (out: seq<byte>)
      requires Layout() && Covers(ws, |blocks|, baseSize, at) && n <= Total(ws) && at + Total(ws) <= capacity
      ensures out == bytes[at..at + n]
    {
      hide Covers, Total, Start, ByteArray.Layout;
      BytesFill();
      TotalNone(ws);
      out := [];
      for i := 0 to |ws|
        invariant |out| == if n < Total(ws[..i]) then n else Total(ws[..i])
        invariant out == bytes[at..at + |out|]
      {
        WindowAt(ws, i, |blocks|, baseSize, at);
        var m := if ws[i].len < n - |out| then ws[i].len else n - |out|;
        if m > 0 {
          var piece := PeekBlock(ws[i].block, ws[i].off, m);
          SliceJoin(bytes, at, |out|, m);
          out := out + piece;
        }
      }
      assert ws[..|ws|] == ws;
    }

    lemma BytesFill()
      requires Layout()
      ensures |bytes| == capacity
    {
    }

    method PeekBlock(i: nat, off: nat, n: nat) returns (s: seq<byte>)
      requires Layout() && i < |blocks| && off + n <= baseSize
      ensures var at := Start(i, baseSize) + off; at + n <= |bytes| && s == bytes[at..at + n]
    {
      StartApart(i, |blocks|, baseSize);
      s := blocks[i][off..off + n];
      forall k | 0 <= k < n
        ensures s[k] == bytes[Start(i, baseSize) + off + k]
      {
        assert Holds(i, off + k);
      }
    }

    /** `clear`: keep the first block only. */
    method Clear()
      requires Valid()
      modifies this
      ensures Valid() && position == 0 && size == 0 && capacity == baseSize && blocks == old(blocks[..1])
      ensures baseSize <= |old(bytes)| && bytes == old(bytes)[..baseSize]
    {
      StartApart(0, |blocks|, baseSize);
      assert Start(1, baseSize) == baseSize;
      position, size, capacity := 0, 0, baseSize;
      blocks, cur, bytes := blocks[..1], 0, bytes[..baseSize];
      forall o | 0 <= o < baseSize
        ensures Holds(0, o)
      {
        assert old(Holds(0, o));
      }
    }
  }

  function Total(ws: seq<Window>): nat {
    if ws == [] then 0 else Total(ws[..|ws| - 1]) + ws[|ws| - 1].len
  }

  /** The windows lie inside blocks and run through consecutive bytes of the flat string from `at`. */
  ghost predicate Covers(ws: seq<Window>, count: nat, size: nat, at: nat) {
    ws == [] || (
      var w, front := ws[|ws| - 1], ws[..|ws| - 1];
      && w.block < count && w.off + w.len <= size
      && Start(w.block, size) + w.off == at + Total(front) && Covers(front, count, size, at))
  }

  lemma TotalNone(ws: seq<Window>)
    ensures Total(ws[..0]) == 0
  {
  }

  lemma SliceJoin(b: seq<byte>, at: nat, n: nat, m: nat)
    requires at + n + m <= |b|
    ensures b[at..at + n] + b[at + n..at + n + m] == b[at..at + (n + m)]
  {
  }

  lemma CoversAppend(ws: seq<Window>, w: Window, count: nat, size: nat, at: nat)
    requires Covers(ws, count, size, at)
    requires w.block < count && w.off + w.len <= size && Start(w.block, size) + w.off == at + Total(ws)
    ensures Covers(ws + [w], count, size, at) && Total(ws + [w]) == Total(ws) + w.len
  {
    assert (ws + [w])[..|ws|] == ws;
  }

  lemma {:induction false} WindowAt(ws: seq<Window>, i: nat, count: nat, size: nat, at: nat)
    requires Covers(ws, count, size, at) && i < |ws|
    ensures ws[i].block < count && ws[i].off + ws[i].len <= size
    ensures Start(ws[i].block, size) + ws[i].off == at + Total(ws[..i])
    ensures Total(ws[..i + 1]) == Total(ws[..i]) + ws[i].len <= Total(ws)
  {
    var front := ws[..|ws| - 1];
    assert ws[..i + 1][..i] == ws[..i];
    if i == |ws| - 1 {
      assert ws[..i + 1] == ws;
    } else {
      WindowAt(front, i, count, size, at);
      assert front[..i] == ws[..i] && front[..i + 1] == ws[..i + 1];
    }
  }

  /** How many bytes `read` writes behind the `n` bytes asked for at position `p`. */
  function Overrun(p: nat, n: nat, size: nat): (r: nat)
    requires 0 < size
    ensures r < size && (r == 0 <==> n == 0 || (p + n) % size == 0)
  {
    if n == 0 || (p + n) % size == 0 then 0 else size - (p + n) % size
  }

  /** With the last byte in block `i`, the rest of that block is what is written too much. */
  lemma OverrunIs(i: nat, p: nat, n: nat, size: nat)
    requires 0 < n && 0 < size && Start(i, size) < p + n <= Start(i, size) + size
    ensures Overrun(p, n, size) == Start(i, size) + size - (p + n)
  {
    if p + n == Start(i, size) + size {
      StartNext(i, size);
      OffsetIsRemainder(i + 1, 0, size);
    } else {
      OffsetIsRemainder(i, p + n - Start(i, size), size);
    }
  }

  /** The first `n` bytes of the destination became the flat bytes from `at` on, and no others. */
  ghost predicate Copied(before: seq<byte>, after: seq<byte>, bytes: seq<byte>, at: nat, n: nat) {
    at + n <= |bytes| && Overwritten(before, after, 0, bytes[at..at + n])
  }

  lemma CopiedNothing(dest: seq<byte>, bytes: seq<byte>, at: nat)
    requires at <= |bytes|
    ensures Copied(dest, dest, bytes, at, 0)
  {
  }

  lemma CopiedMore(a: seq<byte>, b: seq<byte>, c: seq<byte>, bytes: seq<byte>, at: nat, n: nat, more: nat)
    requires Copied(a, b, bytes, at, n) && at + n + more <= |bytes|
    requires Overwritten(b, c, n, bytes[at + n..at + n + more])
    ensures Copied(a, c, bytes, at, n + more)
  {
    OverwriteMore(a, b, c, 0, bytes[at..at + n], bytes[at + n..at + n + more]);
    assert bytes[at..at + n] + bytes[at + n..at + n + more] == bytes[at..at + n + more];
  }

  lemma OverwriteNothing(a: seq<byte>, at: nat)
    requires at <= |a|
    ensures Overwritten(a, a, at, [])
  {
  }

  lemma OverwriteMore(a: seq<byte>, b: seq<byte>, c: seq<byte>, at: nat, s: seq<byte>, t: seq<byte>)
    requires Overwritten(a, b, at, s) && Overwritten(b, c, at + |s|, t)
    ensures Overwritten(a, c, at, s + t)
  {
  }

  /** The effect of a write on the flat string: `s` at `at`, the rest as before, possibly longer. */
  ghost predicate Flatly(a: seq<byte>, b: seq<byte>, at: nat, s: seq<byte>) {
    && |a| <= |b| && at + |s| <= |b|
    && (forall k :: at <= k < at + |s| ==> b[k] == s[k - at])
    && (forall k :: 0 <= k < |a| && !(at <= k < at + |s|) ==> b[k] == a[k])
  }

  /** `b` is `a` with `s` written over it at `at`. */
  ghost predicate Overwritten(a: seq<byte>, b: seq<byte>, at: nat, s: seq<byte>) {
    && |b| == |a| && at + |s| <= |a|
    && forall k :: 0 <= k < |a| ==> b[k] == if at <= k < at + |s| then s[k - at] else a[k]
  }

  lemma FlatlyMore(a: seq<byte>, b: seq<byte>, c: seq<byte>, at: nat, s: seq<byte>, t: seq<byte>)
    requires Flatly(a, b, at, s) && Flatly(b, c, at + |s|, t)
    ensures Flatly(a, c, at, s + t)
  {
  }
}
