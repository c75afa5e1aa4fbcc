/** `SocketStream` transfers through windows, and the `FixSize` loops of `Stream`. */
module Streams {
  import opened Bytes
  import opened ByteArrays

  /** What a call that could transfer `most` bytes returns. */
  function Granted(plan: seq<int>, most: nat): (rt: int)
    ensures rt <= most
  {
    if plan == [] then -1 else if plan[0] < most then plan[0] else if plan[0] <= 0 then plan[0] else most
  }

  function Rest(plan: seq<int>): seq<int> {
    if plan == [] then [] else plan[1..]
  }

  /** At least `n` calls will each transfer something. */
  ghost predicate Generous(plan: seq<int>, n: int) {
    n <= |plan| && forall i :: 0 <= i < |plan| ==> 0 < plan[i]
  }

  /** A connected socket: the bytes to come, the bytes sent, and how much each call will transfer.
      A non-positive entry of `plan` is returned as it is, as an error or end of stream. */
  class Socket {
    var inbox: seq<byte>
    var outbox: seq<byte>
    var plan: seq<int>

    constructor (inbox: seq<byte>, plan: seq<int>)
      ensures this.inbox == inbox && this.outbox == [] && this.plan == plan
    {
      this.inbox, this.outbox, this.plan := inbox, [], plan;
    }

    method NextTransfer(most: nat) returns (rt: int)
      modifies `plan
      ensures rt == Granted(old(plan), most) && plan == Rest(old(plan))
    {
      if plan == [] { return -1; }
      rt := if plan[0] <= 0 then plan[0] else if plan[0] < most then plan[0] else most;
      plan := plan[1..];
    }
  }

  /** `SocketStream::read (ByteArray)`: receiving into the write windows and moving the cursor has
      the effect of `write` with the received bytes. */
  method ReadInto(sock: Socket, ba: ByteArray, length: nat, connected: bool) returns (rt: int)
    requires ba.Valid()
    modifies sock, ba, ba.blocks
    ensures ba.Valid() && old(ba.blocks) <= ba.blocks && rt <= length && sock.outbox == old(sock.outbox)
    ensures forall i :: |old(ba.blocks)| <= i < |ba.blocks| ==> fresh(ba.blocks[i])
    ensures !connected ==> rt == -1
    ensures connected ==> rt == Granted(old(sock.plan), Min(length, |old(sock.inbox)|))
    ensures connected ==> sock.plan == Rest(old(sock.plan))
    ensures var k := if rt > 0 then rt else 0;
            && k <= |old(sock.inbox)| && sock.inbox == old(sock.inbox)[k..]
            && ba.position == old(ba.position) + k
            && ba.size == (if old(ba.size) < ba.position then ba.position else old(ba.size))
            && Flatly(old(ba.bytes), ba.bytes, old(ba.position), old(sock.inbox)[..k])
  {
    hide Flatly, Overwritten, Covers, Total, ByteArray.Cursor, Granted;
    ghost var before := ba.bytes;
    FlatlyNone(before, before, ba.position);
    if !connected { return -1; }
    var ws := ba.GetWriteBuffers(length);
    ghost var room := ba.bytes;
    FlatlyNone(before, room, ba.position);
    rt := sock.NextTransfer(Min(Total(ws), |sock.inbox|));
    if rt > 0 {
      ba.Scatter(ws, ba.position, sock.inbox[..rt]);
      FlatlyScattered(before, room, ba.bytes, ba.position, sock.inbox[..rt]);
      sock.inbox := sock.inbox[rt..];
      var _ := ba.SetPosition(ba.position + rt);
    }
  }

  lemma FlatlyNone(a: seq<byte>, b: seq<byte>, at: nat)
    requires a <= b && at <= |b|
    ensures Flatly(a, b, at, [])
  {
  }

  /** Room made and bytes overwritten in it are one flat write. */
  lemma FlatlyScattered(a: seq<byte>, b: seq<byte>, c: seq<byte>, at: nat, s: seq<byte>)
    requires a <= b && Overwritten(b, c, at, s)
    ensures Flatly(a, c, at, s)
  {
  }

  /** `SocketStream::write (ByteArray)`: what is sent is what `read` would have returned. */
  method WriteFrom(sock: Socket, ba: ByteArray, length: nat, connected: bool) returns (rt: int)
    requires ba.Valid()
    modifies sock, ba`position, ba`size, ba`cur
    ensures ba.Valid() && rt <= length && sock.inbox == old(sock.inbox)
    ensures ba.bytes == old(ba.bytes) && ba.size == old(ba.size)
    ensures !connected ==> rt == -1
    ensures connected ==> rt == Granted(old(sock.plan), Min(length, old(ba.size - ba.position)))
    ensures connected ==> sock.plan == Rest(old(sock.plan))
    ensures var k := if rt > 0 then rt else 0;
            && old(ba.position) + k <= ba.size && ba.position == old(ba.position) + k
            && sock.outbox == old(sock.outbox) + ba.bytes[old(ba.position)..old(ba.position) + k]
  {
    if !connected { return -1; }
    var ws := ba.GetReadBuffers(length);
    rt := sock.NextTransfer(Total(ws));
    if rt > 0 {
      var data := ba.Gather(ws, ba.position, rt);
      sock.outbox := sock.outbox + data;
      var _ := ba.SetPosition(ba.position + rt);
    }
  }

  /** `readFixSize (ByteArray)`: for every pattern of short reads the loop is one transfer of the
      bytes it got, and it reports success exactly when it got all of them. */
  method ReadFixSize(sock: Socket, ba: ByteArray, length: nat) returns (rt: int)
    requires ba.Valid()
    modifies sock, ba, ba.blocks
    ensures ba.Valid() && old(ba.position) <= ba.position <= old(ba.position) + length
    ensures var k := ba.position - old(ba.position);
            && k <= |old(sock.inbox)| && sock.inbox == old(sock.inbox)[k..]
            && Flatly(old(ba.bytes), ba.bytes, old(ba.position), old(sock.inbox)[..k])
            && (rt == length <==> k == length) && (rt != length ==> rt <= 0)
    ensures old(Generous(sock.plan, length)) && length <= |old(sock.inbox)| ==> rt == length
  {
    var left := length;
    var got := 0;
    assert old(sock.inbox)[..0] == [];
    while left > 0
      invariant ba.Valid() && left + got == length && 0 <= got && 0 <= left
      invariant ba.position == old(ba.position) + got && old(ba.blocks) <= ba.blocks
      invariant forall i :: |old(ba.blocks)| <= i < |ba.blocks| ==> fresh(ba.blocks[i])
      invariant got <= |old(sock.inbox)| && sock.inbox == old(sock.inbox)[got..]
      invariant Flatly(old(ba.bytes), ba.bytes, old(ba.position), old(sock.inbox)[..got])
      invariant old(Generous(sock.plan, length)) ==> Generous(sock.plan, left)
      decreases left
    {
      ghost var before := ba.bytes;
      var len := ReadInto(sock, ba, left, true);
      if len <= 0 {
        return len;
      }
      left, got := left - len, got + len;
    }
    rt := length;
  }

  /** `writeFixSize (ByteArray)`, dually. */
  method WriteFixSize(sock: Socket, ba: ByteArray, length: nat) returns (rt: int)
    requires ba.Valid()
    modifies sock, ba`position, ba`size, ba`cur
    ensures ba.Valid() && ba.bytes == old(ba.bytes) && ba.size == old(ba.size)
    ensures old(ba.position) <= ba.position <= old(ba.position) + length
    ensures sock.outbox == old(sock.outbox) + ba.bytes[old(ba.position)..ba.position]
    ensures (rt == length <==> ba.position == old(ba.position) + length) && (rt != length ==> rt <= 0)
    ensures old(Generous(sock.plan, length)) && old(ba.position) + length <= ba.size ==> rt == length
  {
    var left := length;
    while left > 0
      invariant ba.Valid() && 0 <= left && ba.bytes == old(ba.bytes) && ba.size == old(ba.size)
      invariant ba.position == old(ba.position) + length - left
      invariant sock.outbox == old(sock.outbox) + ba.bytes[old(ba.position)..ba.position]
      invariant old(Generous(sock.plan, length)) ==> Generous(sock.plan, left)
      decreases left
    {
      ghost var sent := ba.position;
      var len := WriteFrom(sock, ba, left, true);
      if len <= 0 {
        return len;
      }
      SliceMore(ba.bytes, old(ba.position), sent, ba.position, old(sock.outbox));
      left := left - len;
    }
    rt := length;
  }

  lemma SliceMore(b: seq<byte>, i: nat, j: nat, k: nat, out: seq<byte>)
    requires i <= j <= k <= |b|
    ensures out + b[i..j] + b[j..k] == out + b[i..k]
  {
    assert b[i..j] + b[j..k] == b[i..k];
  }
}
