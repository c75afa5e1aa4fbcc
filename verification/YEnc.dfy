/** The yEnc coding without header and tail. */
module YEnc {
  import opened Bytes
  import opened BStrings

  const ESCAPE := '=' as int
  const CR := 13
  const LF := 10
  const MAX_OB_LEN := 64

  predicate Critical(c: byte) { c == ESCAPE || c == 0 || c == CR || c == LF }

  /** Addition of bytes wraps. */
  function Shifted(c: int, d: int): byte { (c + d) % 256 }

  function EncodedByte(x: byte): seq<byte> {
    var c := Shifted(x, 42);
    if Critical(c) then [ESCAPE, Shifted(c, 64)] else [c]
  }

  /** Four bytes are escaped, those that are NUL, LF, CR and '=' after the shift. */
  lemma EncodedByteIs(x: byte)
    ensures EncodedByte(x) == if x in {214, 224, 227, 19} then ['=' as int, (x as int + 106) % 256]
                                else [(x as int + 42) % 256]
  {
  }

  function Encoded(s: seq<byte>): seq<byte> {
    if s == [] then [] else Encoded(s[..|s| - 1]) + EncodedByte(s[|s| - 1])
  }

  /** The decoded bytes; a NUL or a text that ends inside an escape has none. */
  function Decoded(t: seq<byte>): Option<seq<byte>> {
    if t == [] then Some([])
    else if t[0] == ESCAPE then if |t| == 1 then None else Before(Shifted(t[1], -64 - 42), Decoded(t[2..]))
    else if t[0] == 0 then None
    else if t[0] == CR || t[0] == LF then Decoded(t[1..])
    else Before(Shifted(t[0], -42), Decoded(t[1..]))
  }

  function Before(x: byte, rest: Option<seq<byte>>): Option<seq<byte>> {
    if rest.None? then None else Some([x] + rest.value)
  }

  /** What a character at the front of a text stands for. */
  lemma DecodedFront(c: byte, t: seq<byte>)
    requires c != ESCAPE
    ensures Decoded([c] + t) ==
            if c == 0 then None
            else if c == 10 || c == 13 then Decoded(t)
            else Before((c as int + 214) % 256, Decoded(t))
  {
    assert ([c] + t)[1..] == t;
    hide Before;
  }

  /** What an escape at the front of a text stands for. */
  lemma EscapeFront(c: byte, t: seq<byte>)
    ensures Decoded(['=' as int]) == None
    ensures Decoded(['=' as int, c] + t) == Before((c as int + 150) % 256, Decoded(t))
  {
    assert (['=' as int, c] + t)[2..] == t;
    hide Before;
  }

  function Append(a: Option<seq<byte>>, b: Option<seq<byte>>): Option<seq<byte>> {
    if a.None? || b.None? then None else Some(a.value + b.value)
  }

  /** A text that ends inside an escape, read from the front. */
  predicate Open(t: seq<byte>) {
    t != [] && if t[0] == ESCAPE then |t| == 1 || Open(t[2..]) else Open(t[1..])
  }

  /** Only a '=' can leave an escape open. */
  lemma {:induction false} OpenEndsInEscape(t: seq<byte>)
    ensures Open(t) ==> t[|t| - 1] == ESCAPE
  {
    if t != [] {
      if t[0] == ESCAPE {
        if |t| == 2 {
          assert t[2..] == [] && !Open(t[2..]);
        } else if |t| > 2 {
          OpenEndsInEscape(t[2..]);
          assert t[2..][|t| - 3] == t[|t| - 1];
        }
      } else if |t| == 1 {
        assert t[1..] == [] && !Open(t[1..]);
      } else {
        OpenEndsInEscape(t[1..]);
        assert t[1..][|t| - 2] == t[|t| - 1];
      }
    }
  }

  /** Decoding is piecewise where no escape is cut. */
  lemma {:induction false} DecodedConcat(a: seq<byte>, b: seq<byte>)
    requires !Open(a)
    ensures Decoded(a + b) == Append(Decoded(a), Decoded(b))
  {
    if a == [] {
      assert a + b == b;
      if Decoded(b).Some? { assert [] + Decoded(b).value == Decoded(b).value; }
    } else if a[0] == ESCAPE {
      assert (a + b)[2..] == a[2..] + b;
      DecodedConcat(a[2..], b);
      AppendBefore(Shifted(a[1], -64 - 42), Decoded(a[2..]), Decoded(b));
    } else if a[0] != 0 {
      assert (a + b)[1..] == a[1..] + b;
      DecodedConcat(a[1..], b);
      AppendBefore(Shifted(a[0], -42), Decoded(a[1..]), Decoded(b));
    }
  }

  lemma AppendBefore(x: byte, a: Option<seq<byte>>, b: Option<seq<byte>>)
    ensures Before(x, Append(a, b)) == Append(Before(x, a), b)
  {
    if a.Some? && b.Some? {
      assert [x] + (a.value + b.value) == [x] + a.value + b.value;
    }
  }

  lemma ByteBack(x: byte)
    ensures Decoded(EncodedByte(x)) == Some([x]) && !Open(EncodedByte(x))
  {
    var c := Shifted(x, 42);
    var t := EncodedByte(x);
    if Critical(c) {
      assert t[2..] == [] && Shifted(t[1], -64 - 42) == x;
    } else {
      assert t[1..] == [] && Shifted(c, -42) == x && [x] + [] == [x];
    }
  }

  lemma {:induction false} OpenConcat(a: seq<byte>, b: seq<byte>)
    requires !Open(a)
    ensures Open(a + b) == Open(b)
  {
    if a == [] {
      assert a + b == b;
    } else if a[0] == ESCAPE {
      assert (a + b)[2..] == a[2..] + b;
      OpenConcat(a[2..], b);
    } else {
      assert (a + b)[1..] == a[1..] + b;
      OpenConcat(a[1..], b);
    }
  }

  /** Decoding an encoding gives every byte string back. */
  lemma {:induction false} RoundTrip(s: seq<byte>)
    ensures Decoded(Encoded(s)) == Some(s) && !Open(Encoded(s))
  {
    if s != [] {
      var front, x := s[..|s| - 1], s[|s| - 1];
      RoundTrip(front);
      ByteBack(x);
      DecodedConcat(Encoded(front), EncodedByte(x));
      OpenConcat(Encoded(front), EncodedByte(x));
      assert s == front + [x];
    }
  }

  /** An encoding holds no NUL, CR or LF. */
  lemma {:induction false} NoControls(s: seq<byte>)
    ensures forall k :: 0 <= k < |Encoded(s)| ==> Encoded(s)[k] !in {0, CR, LF}
  {
    if s != [] { NoControls(s[..|s| - 1]); }
  }

  /** A line break inserted anywhere except directly after '=' does not change the result. */
  lemma BreakIsIgnored(a: seq<byte>, br: byte, b: seq<byte>)
    requires br == CR || br == LF
    requires a == [] || a[|a| - 1] != ESCAPE
    ensures Decoded(a + [br] + b) == Decoded(a + b)
  {
    OpenEndsInEscape(a);
    assert ([br] + b)[1..] == b;
    DecodedConcat(a, [br] + b);
    DecodedConcat(a, b);
    assert a + [br] + b == a + ([br] + b);
  }

  /** In an encoding, every '=' stands before a byte that is not critical. */
  lemma {:induction false} EscapesInside(s: seq<byte>, i: nat)
    requires i < |Encoded(s)| && Encoded(s)[i] == ESCAPE
    ensures i + 1 < |Encoded(s)| && !Critical(Encoded(s)[i + 1])
  {
    var front := s[..|s| - 1];
    if i < |Encoded(front)| { EscapesInside(front, i); }
  }

  /** In an encoding, a line break directly after '=' always changes the result: together with
      BreakIsIgnored, a break is harmless exactly where the byte before it is not '='. */
  lemma BreakInEscape(s: seq<byte>, br: byte, i: nat)
    requires (br == CR || br == LF) && 0 < i <= |Encoded(s)| && Encoded(s)[i - 1] == ESCAPE
    ensures Decoded(Encoded(s)[..i] + [br] + Encoded(s)[i..]) != Decoded(Encoded(s))
  {
    hide Encoded, Critical;
    var t := Encoded(s);
    var a, b := t[..i - 1], t[i..];
    EscapesInside(s, i - 1);
    if Open(a) {
      OpenEndsInEscape(a);
      EscapesInside(s, i - 2);
      EscapeIsCritical();
    }
    RoundTrip(s);
    BreakParts(t, i, br);
    OneMore(br, b);
    Longer(a, [ESCAPE] + b, [ESCAPE, br] + b);
  }

  lemma BreakParts(t: seq<byte>, i: nat, br: byte)
    requires 0 < i <= |t| && t[i - 1] == ESCAPE
    ensures t == t[..i - 1] + ([ESCAPE] + t[i..])
    ensures t[..i] + [br] + t[i..] == t[..i - 1] + ([ESCAPE, br] + t[i..])
  {
    assert t[..i] == t[..i - 1] + [ESCAPE] && t == t[..i] + t[i..];
  }

  /** Behind the same text, a longer decoding makes a longer whole. */
  lemma Longer(a: seq<byte>, b: seq<byte>, c: seq<byte>)
    requires !Open(a) && Decoded(a + b).Some?
    requires Decoded(b).Some? ==> Decoded(c).Some? && |Decoded(b).value| < |Decoded(c).value|
    ensures Decoded(a + b) != Decoded(a + c)
  {
    hide Decoded, Open;
    DecodedConcat(a, b);
    DecodedConcat(a, c);
    assert |Decoded(a).value + Decoded(b).value| < |Decoded(a).value + Decoded(c).value|;
  }

  lemma EscapeIsCritical()
    ensures Critical(ESCAPE)
  {
  }

  lemma OneMore(br: byte, b: seq<byte>)
    requires b != [] && !Critical(b[0])
    ensures var x, y := Decoded([ESCAPE] + b), Decoded([ESCAPE, br] + b);
            x.None? == y.None? && (x.Some? ==> |x.value| < |y.value|)
  {
    assert ([ESCAPE] + b)[2..] == b[1..] && ([ESCAPE, br] + b)[2..] == b;
  }

  // ----- The loops -----

  /** `bYEncode`. */
  method Encode(src: seq<byte>) returns (out: BString)
    ensures fresh(out) && out.Valid() && out.Contents() == Encoded(src)
  {
    out := new BString([]);
    for i := 0 to |src|
      invariant out.Valid() && fresh(out) && fresh(out.data) && out.Contents() == Encoded(src[..i])
    {
      assert src[..i + 1][..i] == src[..i];
      var c := Shifted(src[i], 42);
      if Critical(c) {
        out.AppendChar(ESCAPE);
        c := Shifted(c, 64);
      }
      out.AppendChar(c);
    }
    assert src[..|src|] == src;
  }

  /** `bYDecode`, which gathers up to 64 octets before appending them to the output. */
  method Decode(src: seq<byte>) returns (r: Option<BString>)
    ensures r.None? <==> Decoded(src).None?
    ensures r.Some? ==> r.value.Valid() && Some(r.value.Contents()) == Decoded(src)
  {
    hide Decoded, Append, Before;
    var out := new BString([]);
    var octetbuff := new byte[MAX_OB_LEN];
    var obl, i := 0, 0;
    ghost var done: seq<byte> := [];
    StartOf(src);
    while i < |src|
      invariant 0 <= i <= |src| && 0 <= obl < MAX_OB_LEN && octetbuff.Length == MAX_OB_LEN
      invariant out.Valid() && fresh(out) && fresh(out.data) && out.data != octetbuff && fresh(octetbuff)
      invariant out.Contents() + octetbuff[..obl] == done
      invariant Decoded(src) == Append(Some(done), Decoded(src[i..]))
    {
      StepAt(src, i, done);
      var c := src[i];
      if c == ESCAPE {
        i := i + 1;
        if i >= |src| { return None; }
        c := Shifted(src[i], -64);
      } else {
        if c == 0 { return None; }
        if c == CR || c == LF {
          i := i + 1;
          continue;
        }
      }
      c := Shifted(c, -42);
      obl := Stage(out, octetbuff, obl, c);
      done, i := done + [c], i + 1;
    }
    EndOf(src, done);
    out.Append(octetbuff[..obl]);
    r := Some(out);
  }

  /** One octet into the staging buffer, which is emptied into the output when it is full. */
  method Stage(out: BString, octetbuff: array<byte>, obl: nat, c: byte) returns (obl': nat)
    requires out.Valid() && octetbuff.Length == MAX_OB_LEN && obl < MAX_OB_LEN && out.data != octetbuff
    modifies out, out.data, octetbuff
    ensures out.Valid() && out.data != octetbuff && (out.data == old(out.data) || fresh(out.data)) && obl' < MAX_OB_LEN
    ensures out.Contents() + octetbuff[..obl'] == old(out.Contents() + octetbuff[..obl]) + [c]
  {
    ghost var before := octetbuff[..obl];
    octetbuff[obl] := c;
    assert octetbuff[..obl + 1] == before + [c];
    obl' := obl + 1;
    if obl' >= MAX_OB_LEN {
      out.Append(octetbuff[..obl']);
      obl' := 0;
    }
  }

  lemma StartOf(s: seq<byte>)
    ensures Decoded(s) == Append(Some([]), Decoded(s[0..]))
  {
    assert s[0..] == s;
    if Decoded(s).Some? { assert [] + Decoded(s).value == Decoded(s).value; }
  }

  lemma EndOf(s: seq<byte>, done: seq<byte>)
    ensures Append(Some(done), Decoded(s[|s|..])) == Some(done)
  {
    assert s[|s|..] == [] && done + [] == done;
  }

  /** One round of the decoder on the rest from `i` on. */
  lemma StepAt(s: seq<byte>, i: nat, done: seq<byte>)
    requires i < |s|
    ensures var all := Append(Some(done), Decoded(s[i..]));
            if s[i] == ESCAPE then
              all == if i + 1 == |s| then None
                     else Append(Some(done + [Shifted(Shifted(s[i + 1], -64), -42)]), Decoded(s[i + 2..]))
            else if s[i] == 0 then all == None
            else if s[i] == CR || s[i] == LF then all == Append(Some(done), Decoded(s[i + 1..]))
            else all == Append(Some(done + [Shifted(s[i], -42)]), Decoded(s[i + 1..]))
  {
    var t := s[i..];
    assert t[1..] == s[i + 1..];
    if s[i] == ESCAPE && i + 1 < |s| {
      assert t[2..] == s[i + 2..];
      assert Shifted(s[i + 1], -64 - 42) == Shifted(Shifted(s[i + 1], -64), -42);
      StepAppend(done, Shifted(t[1], -64 - 42), Decoded(t[2..]));
    } else {
      StepAppend(done, Shifted(t[0], -42), Decoded(t[1..]));
    }
  }

  lemma StepAppend(done: seq<byte>, x: byte, rest: Option<seq<byte>>)
    ensures Append(Some(done), Before(x, rest)) == Append(Some(done + [x]), rest)
  {
    if rest.Some? { assert done + ([x] + rest.value) == done + [x] + rest.value; }
  }
}
