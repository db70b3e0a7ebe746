/** Byte strings, and the few facts about cutting and joining them that every
    buffer in the library relies on. */
module Bytes {
  type Byte = x: int | 0 <= x < 256

  const NUL: Byte := 0
  const SEMICOLON: Byte := 59
  const EQUALS: Byte := 61
  const BACKSLASH: Byte := 92

  /** The n bytes from some position on. */
  function Slice(s: seq<Byte>, from: nat, n: nat): (piece: seq<Byte>)
    requires from + n <= |s|
    ensures |piece| == n
  {
    s[from..from + n]
  }

  lemma Associative(a: seq<Byte>, b: seq<Byte>, c: seq<Byte>)
    ensures a + (b + c) == a + b + c
  {
  }

  lemma SplitAt(a: seq<Byte>, s: seq<Byte>, n: nat)
    requires n <= |s|
    ensures a + s == (a + s[..n]) + s[n..]
  {
    assert s == s[..n] + s[n..];
  }

  lemma SliceOfTail(s: seq<Byte>, a: nat, c: nat, d: nat)
    requires a <= |s| && c <= d <= |s| - a
    ensures s[a..][c..d] == s[a + c..a + d]
  {
    var l, r := s[a..][c..d], s[a + c..a + d];
    assert |l| == |r| && forall k :: 0 <= k < |l| ==> l[k] == r[k];
  }

  lemma DropDrop(s: seq<Byte>, a: nat, n: nat)
    requires a + n <= |s|
    ensures s[a..][n..] == s[a + n..]
  {
  }

  lemma SliceOfSlice(s: seq<Byte>, a: nat, b: nat, c: nat, d: nat)
    requires a <= b <= |s| && c <= d <= b - a
    ensures s[a..b][c..d] == s[a + c..a + d]
  {
    var l, r := s[a..b][c..d], s[a + c..a + d];
    assert |l| == |r| && forall k :: 0 <= k < |l| ==> l[k] == r[k];
  }

  /** memchr(3): the first place of a byte among the next n, or -1.  The n may
      reach past the end as long as a match comes before it. */
  method Memchr(data: seq<Byte>, from: nat, n: nat, c: Byte) returns (at: int)
    requires from <= |data| && (from + n <= |data| || c in data[from..])
    ensures at == -1 || (from <= at < from + n && at < |data| && data[at] == c)
    ensures at == -1 ==> from + n <= |data| && forall k :: from <= k < from + n ==> data[k] != c
    ensures at != -1 ==> forall k :: from <= k < at ==> data[k] != c
  {
    at := from;
    while at < from + n
      invariant from <= at <= from + n && at <= |data|
      invariant from + n <= |data| || exists k :: at <= k < |data| && data[k] == c
      invariant forall k :: from <= k < at ==> data[k] != c
    {
      if data[at] == c {
        return;
      }
      at := at + 1;
    }
    return -1;
  }
}
