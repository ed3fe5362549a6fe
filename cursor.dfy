/** The specification of a read cursor over a byte sequence, shared by
    `MemoryInputStream`, `StringInputStream` and `VectorInputStream`: each call
    of `read_some` hands out the next bytes after the cursor, at most as many
    as were asked for, and moves the cursor past them. */
module Cursor {
  import opened Bytes

  /** The bytes one `read_some(buffer, size)` returns from `src` at `pos`. */
  function Take(src: seq<byte>, pos: nat, size: nat): (out: seq<byte>)
    requires pos <= |src|
    ensures |out| == Min(size, |src| - pos)
    ensures pos + |out| <= |src| && out == src[pos..pos + |out|]
    ensures |out| < size ==> pos + |out| == |src|
    ensures |out| == 0 <==> size == 0 || pos == |src|
  {
    src[pos..pos + Min(size, |src| - pos)]
  }

  /** The same read, seen from the bytes left after the cursor: a prefix of
      them, and what is left afterwards is the rest. */
  lemma TakeFromRest(src: seq<byte>, pos: nat, size: nat)
    requires pos <= |src|
    ensures var out := Take(src, pos, size);
            out == src[pos..][..|out|] && src[pos + |out|..] == src[pos..][|out|..]
  {
  }

  function Sum(sizes: seq<nat>): nat
  {
    if sizes == [] then 0 else sizes[0] + Sum(sizes[1..])
  }

  /** The bytes returned by successive reads of the given sizes, concatenated. */
  function ReadAll(src: seq<byte>, pos: nat, sizes: seq<nat>): seq<byte>
    requires pos <= |src|
    decreases |sizes|
  {
    if sizes == [] then []
    else
      var out := Take(src, pos, sizes[0]);
      out + ReadAll(src, pos + |out|, sizes[1..])
  }

  /** Successive reads neither skip nor repeat a byte: together they return
      the next `min(total asked, bytes left)` bytes of the source, in order. */
  lemma {:induction false} ReadsAreContiguous(src: seq<byte>, pos: nat, sizes: seq<nat>)
    requires pos <= |src|
    ensures var all := ReadAll(src, pos, sizes);
            |all| == Min(Sum(sizes), |src| - pos) && all == src[pos..pos + |all|]
    decreases |sizes|
  {
    if sizes != [] {
      var out := Take(src, pos, sizes[0]);
      ReadsAreContiguous(src, pos + |out|, sizes[1..]);
      var rest := ReadAll(src, pos + |out|, sizes[1..]);
      assert src[pos..pos + |out| + |rest|] == out + rest;
    }
  }
}
