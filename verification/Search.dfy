/** Substring search: `binstr` and the specification of a leftmost occurrence. */
module Search {
  import opened Bytes

  /** `find` occupies the bytes of `s` from position `p` on. */
  predicate OccursAt(s: seq<byte>, p: int, find: seq<byte>) {
    0 <= p && p + |find| <= |s| && s[p..p + |find|] == find
  }

  ghost predicate NoneBetween(s: seq<byte>, lo: int, hi: int, find: seq<byte>) {
    forall p :: lo <= p < hi ==> !OccursAt(s, p, find)
  }

  /** What a leftmost search from `pos` must answer. */
  ghost predicate IsFirst(s: seq<byte>, pos: int, find: seq<byte>, r: int) {
    if r < 0 then
      r == BSTR_ERR && NoneBetween(s, pos, |s| + 1, find)
    else
      pos <= r && OccursAt(s, r, find) && NoneBetween(s, pos, r, find)
  }

  /** One character of a candidate occurrence. */
  lemma OccursChar(s: seq<byte>, p: int, find: seq<byte>, j: nat)
    requires OccursAt(s, p, find) && j < |find|
    ensures s[p + j] == find[j]
  {
    assert s[p..p + |find|][j] == find[j];
  }

  /** A mismatch at `i` against `find[j]` rules out the occurrence that starts at `i - j`. */
  lemma MismatchExcludes(s: seq<byte>, pos: int, i: int, j: nat, find: seq<byte>)
    requires j < |find| && 0 <= i < |s| && s[i] != find[j]
    requires NoneBetween(s, pos, i - j, find)
    ensures NoneBetween(s, pos, i + 1 - j, find)
  {
    if OccursAt(s, i - j, find) {
      OccursChar(s, i - j, find, j);
    }
  }

  /** Once fewer bytes remain than the pattern still needs, nothing can occur any more. */
  lemma OutOfRoom(s: seq<byte>, pos: int, lo: int, find: seq<byte>)
    requires lo + |find| > |s|
    requires NoneBetween(s, pos, lo, find)
    ensures NoneBetween(s, pos, |s| + 1, find)
  {
  }

  /** `binstr`: scans two bytes at a time for a greedy subsequence of the pattern and only then
      asks whether the bytes it matched were contiguous. */
  method Binstr(d1: seq<byte>, pos: int, d0: seq<byte>) returns (r: int)
    ensures pos < 0 || pos > |d1| ==> r == BSTR_ERR
    ensures 0 <= pos <= |d1| ==> IsFirst(d1, pos, d0, r)
  {
    if |d1| == pos {
      r := if |d0| == 0 then pos else BSTR_ERR;
      return;
    }
    if |d1| < pos || pos < 0 { return BSTR_ERR; }
    if |d0| == 0 { return pos; }
    var ll := |d0|;
    var lf := |d1| - ll + 1;
    if lf <= pos { return BSTR_ERR; }
    var i := pos;
    if ll == 1 {
      while i < lf
        invariant pos <= i <= lf
        invariant NoneBetween(d1, pos, i, d0)
      {
        if d0[0] == d1[i] { return i; }
        MismatchExcludes(d1, pos, i, 0, d0);
        i := i + 1;
      }
      return BSTR_ERR;
    }
    r := GreedyScan(d1, pos, d0);
  }

  /** The unrolled loop of `binstr` for patterns of at least two bytes. */
  method GreedyScan(d1: seq<byte>, pos: nat, d0: seq<byte>) returns (r: int)
    requires |d0| >= 2 && pos + |d0| <= |d1|
    ensures IsFirst(d1, pos, d0, r)
  {
    hide OccursAt, NoneBetween, Matched;
    var ll, lf := |d0|, |d1| - 1;
    var i, j, ii := pos, 0, -1;
    ghost var start := pos;
    NoneYet(d1, pos, d0);
    while true
      invariant pos <= start <= i <= |d1| && 0 <= j < ll
      invariant 0 < j ==> start <= ii && ii + j <= i
      invariant j == 0 ==> start <= i
      invariant 0 < j && i == ii + j ==> Matched(d1, ii, d0, j)
      invariant NoneBetween(d1, pos, i - j, d0)
      decreases |d1| - start, |d1| - i
    {
      var contiguous := false;
      if i < lf {
        if d0[j] != d1[i] {
          MismatchExcludes(d1, pos, i, j, d0);
          if d0[j] != d1[i + 1] {
            MismatchExcludes(d1, pos, i + 1, j, d0);
            i := i + 2;
            continue;
          }
          i := i + 1;
        }
        if j == 0 { ii := i; }
        if i == ii + j { MatchedMore(d1, ii, d0, j); }
        j, i := j + 1, i + 1;
        if j < ll { continue; }
        contiguous := i == ii + j;
      } else if i == lf && ll == j + 1 && d0[j] == d1[i] {
        if i == ii + j { MatchedMore(d1, ii, d0, j); }
        contiguous := i == ii + j;
      } else {
        if i == lf && ll == j + 1 { MismatchExcludes(d1, pos, i, j, d0); }
        OutOfRoom(d1, pos, if i == lf && ll == j + 1 then i + 1 - j else i - j, d0);
        return BSTR_ERR;
      }
      if contiguous {
        MatchedAll(d1, ii, d0, if j == ll then j else j + 1);
        return ii;
      }
      i, j, start := i - j, 0, i - j;
    }
  }

  /** The first `j` bytes of the pattern stand at `ii`. */
  ghost predicate Matched(s: seq<byte>, ii: int, find: seq<byte>, j: int) {
    0 <= ii <= ii + j <= |s| && j <= |find| && s[ii..ii + j] == find[..j]
  }

  lemma MatchedMore(s: seq<byte>, ii: int, find: seq<byte>, j: nat)
    requires 0 <= ii && ii + j < |s| && j < |find| && s[ii + j] == find[j] && (j > 0 ==> Matched(s, ii, find, j))
    ensures Matched(s, ii, find, j + 1)
  {
    assert s[ii..ii + j + 1] == s[ii..ii + j] + [find[j]];
    assert find[..j + 1] == find[..j] + [find[j]];
  }

  lemma MatchedAll(s: seq<byte>, ii: int, find: seq<byte>, j: int)
    requires Matched(s, ii, find, j) && j == |find|
    ensures OccursAt(s, ii, find)
  {
    assert find[..j] == find;
  }

  lemma NoneYet(s: seq<byte>, pos: int, find: seq<byte>)
    ensures NoneBetween(s, pos, pos, find)
  {
  }
}
