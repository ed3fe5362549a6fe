/** Bytes, the `std::min` every stream uses to clip a count, and `memcpy`:
    the copy into an array that the readers and the ring use. The lemmas
    at the end are the facts about splitting and joining byte sequences that the
    copy loops need. */
module Bytes {

  newtype byte = b: int | 0 <= b < 0x100

  function Min(a: nat, b: nat): nat
  {
    if a <= b then a else b
  }

  /** The contents of a buffer `buf` after `src` has been copied into it at offset `at`. */
  function Store(buf: seq<byte>, at: nat, src: seq<byte>): seq<byte>
    requires at + |src| <= |buf|
  {
    buf[..at] + src + buf[at + |src|..]
  }

  /** `memcpy(dst + at, src, |src|)`: overwrites exactly `dst[at .. at + |src|)`. */
  method Memcpy(dst: array<byte>, at: nat, src: seq<byte>)
    requires at + |src| <= dst.Length
    modifies dst
    ensures dst[..] == Store(old(dst[..]), at, src)
    ensures dst[at..at + |src|] == src
  {
    for i := 0 to |src|
      invariant forall k :: 0 <= k < dst.Length && !(at <= k < at + i) ==> dst[k] == old(dst[k])
      invariant forall k :: at <= k < at + i ==> dst[k] == src[k - at]
    {
      dst[at + i] := src[i];
    }
    assert dst[..] == Store(old(dst[..]), at, src);
  }

  /** Moving the first `c` bytes of `r` to the end of `u` keeps `u + r`. */
  lemma SplitAt(u: seq<byte>, r: seq<byte>, c: nat)
    requires c <= |r|
    ensures (u + r[..c]) + r[c..] == u + r
  {
    assert r == r[..c] + r[c..];
  }

  /** If `x + y == s + u` and `x` extends `s` by `t` bytes, those bytes are
      the first `t` of `u` and `y` is the rest of `u`. */
  lemma Conserve(x: seq<byte>, y: seq<byte>, s: seq<byte>, u: seq<byte>, t: nat)
    requires x + y == s + u && |x| == |s| + t
    ensures t <= |u| && x == s + u[..t] && y == u[t..]
  {
    assert x == (x + y)[..|x|];
    assert y == (x + y)[|x|..];
  }

  /** Appending `d[b..c]` to `d[a..b]` gives `d[a..c]`. */
  lemma Extend(s: seq<byte>, d: seq<byte>, a: nat, b: nat, c: nat)
    requires a <= b <= c <= |d|
    ensures (s + d[a..b]) + d[b..c] == s + d[a..c]
  {
    assert d[a..c] == d[a..b] + d[b..c];
  }

  /** Moving `c` more bytes of `u` from the front of what is left to the end
      of what was taken. */
  lemma Consume(s: seq<byte>, u: seq<byte>, t: nat, c: nat)
    requires t + c <= |u|
    ensures (s + u[..t]) + u[t..][..c] == s + u[..t + c]
    ensures u[t..][c..] == u[t + c..]
  {
    assert u[..t + c] == u[..t] + u[t..][..c];
  }

  /** Bytes appended to a queue, then traced through the rest of a run. */
  lemma AppendThen(u: seq<byte>, d: seq<byte>, u1: seq<byte>, acc: seq<byte>, del: seq<byte>, un: seq<byte>)
    requires u1 == u + d && u1 + acc == del + un
    ensures u + (d + acc) == del + un
  {
    assert u + (d + acc) == (u + d) + acc;
  }

  /** Bytes taken from the front of a queue, then traced through the rest of a run. */
  lemma TakeThen(u: seq<byte>, o: seq<byte>, u1: seq<byte>, acc: seq<byte>, del: seq<byte>, un: seq<byte>)
    requires |o| <= |u| && o == u[..|o|] && u1 == u[|o|..] && u1 + acc == del + un
    ensures u + acc == (o + del) + un
  {
    assert u == o + u1;
    assert (o + u1) + acc == o + (u1 + acc);
    assert o + (del + un) == (o + del) + un;
  }
}
