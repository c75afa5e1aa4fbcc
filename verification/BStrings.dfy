/** The growable byte string `tagbstring` and the block operations the library builds on. */
module BStrings {
  import opened Bytes

  /** `snapUpSize`: the least power of two above `i`, and at least eight. */
  function SnapUpSize(i: nat): (r: nat)
    ensures i < r && 8 <= r && PowerOfTwo(r) && (8 <= i ==> r / 2 <= i)
  {
    DoubleUntilAbove(8, i)
  }

  function DoubleUntilAbove(p: nat, i: nat): (r: nat)
    requires 0 < p && PowerOfTwo(p)
    ensures i < r && p <= r && PowerOfTwo(r) && (p <= i ==> r / 2 <= i)
    decreases i - p
  {
    if i < p then p else assert 2 * p / 2 == p; DoubleUntilAbove(2 * p, i)
  }

  predicate PowerOfTwo(n: nat) {
    n == 1 || (0 < n && n % 2 == 0 && PowerOfTwo(n / 2))
  }

  /** `memmove` of `n` bytes inside one buffer; the two ranges may overlap. */
  method MoveBytes(a: array<byte>, dst: nat, src: nat, n: nat)
    requires dst + n <= a.Length && src + n <= a.Length
    modifies a
    ensures forall k {:trigger a[k]} :: 0 <= k < a.Length ==>
              a[k] == if dst <= k < dst + n then old(a[k - dst + src]) else old(a[k])
  {
    forall k | 0 <= k < n {
      a[dst + k] := a[src + k];
    }
  }

  /** `memcpy` of the bytes `s` into a buffer. */
  method CopyBytes(a: array<byte>, dst: nat, s: seq<byte>)
    requires dst + |s| <= a.Length
    modifies a
    ensures forall k {:trigger a[k]} :: 0 <= k < a.Length ==>
              a[k] == if dst <= k < dst + |s| then s[k - dst] else old(a[k])
  {
    forall k | 0 <= k < |s| {
      a[dst + k] := s[k];
    }
  }

  class BString {
    var data: array<byte>
    var slen: nat

    /** There is room for the terminating NUL after the string. */
    ghost predicate Valid()
      reads this
    {
      slen < data.Length
    }

    function Contents(): seq<byte>
      requires Valid()
      reads this, data
    {
      data[..slen]
    }

    /** `blk2bstr`, and with an empty block `bfromcstr ("")`. */
    constructor (s: seq<byte>)
      ensures Valid() && Contents() == s && fresh(data)
    {
      var buffer := new byte[SnapUpSize(if s == [] then 2 else |s| + 1)](_ => 0);
      data, slen := buffer, |s|;
      new;
      CopyBytes(buffer, 0, s);
    }

    /** `balloc`: make room for `olen` bytes without changing the string. */
    method Alloc(olen: nat)
      requires Valid()
      modifies this, data
      ensures Valid() && Contents() == old(Contents()) && slen == old(slen)
      ensures olen <= data.Length && old(data.Length) <= data.Length
      ensures data == old(data) || fresh(data)
    {
      if olen >= data.Length {
        var len := SnapUpSize(olen);
        if len <= data.Length { return; }
        var x := new byte[len](_ => 0);
        forall k | 0 <= k < slen {
          x[k] := data[k];
        }
        data := x;
        data[slen] := 0;
        assert data[..slen] == old(data[..slen]);
      }
    }

    /** `bconcat` and `bcatblk`: append a block that does not alias this string. */
    method Append(s: seq<byte>)
      requires Valid()
      modifies this, data
      ensures Valid() && Contents() == old(Contents()) + s
      ensures old(data.Length) <= data.Length
      ensures data == old(data) || fresh(data)
    {
      if data.Length <= slen + |s| + 1 {
        Alloc(slen + |s| + 1);
      }
      CopyBytes(data, slen, s);
      data[slen + |s|] := 0;
      slen := slen + |s|;
      assert Contents() == old(Contents()) + s;
    }

    /** `bconchar`. */
    method AppendChar(c: byte)
      requires Valid()
      modifies this, data
      ensures Valid() && Contents() == old(Contents()) + [c]
      ensures data == old(data) || fresh(data)
    {
      Alloc(slen + 2);
      data[slen] := c;
      data[slen + 1] := 0;
      slen := slen + 1;
      assert Contents() == old(Contents()) + [c];
    }

    /** `bdelete` of the first `len` bytes. */
    method DeleteFront(len: nat)
      requires Valid()
      modifies `slen, data
      ensures Valid() && data == old(data)
      ensures Contents() == if len <= old(slen) then old(Contents())[len..] else []
    {
      if len > 0 && slen > 0 {
        if len >= slen {
          slen := 0;
        } else {
          MoveBytes(data, 0, len, slen - len);
          slen := slen - len;
        }
        data[slen] := 0;
      }
    }

    /** `binsert` at position 0. */
    method InsertFront(s: seq<byte>)
      requires Valid()
      modifies this, data
      ensures Valid() && Contents() == s + old(Contents())
      ensures data == old(data) || fresh(data)
    {
      var d := slen + |s|;
      Alloc(d + 1);
      MoveBytes(data, |s|, 0, slen);
      CopyBytes(data, 0, s);
      slen := d;
      data[slen] := 0;
      assert Contents() == s + old(Contents());
    }
  }
}
