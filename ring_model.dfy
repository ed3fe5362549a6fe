/** The specification of `CircularBuffer` as values: the storage block, the two
    counters `readPos` and `writePos` (not reduced modulo the capacity), and the
    steps `did_write`, `did_read`, `write_some` and `read_some` as functions.
    The queue of unread bytes is the abstraction: `Unread(q)` lists the bytes at
    logical positions `readPos .. writePos`, each taken modulo the capacity. */
module RingModel {
  import opened Bytes

  datatype Ring = Ring(storage: seq<byte>, readPos: nat, writePos: nat)

  /** The counters' invariant: a non-empty block, a normalized read counter,
      never more unread bytes than the capacity, never reading past the writer. */
  ghost predicate Valid(q: Ring)
  {
    0 < |q.storage| && q.readPos < |q.storage| && q.readPos <= q.writePos <= q.readPos + |q.storage|
  }

  /** The storage slots of `count` consecutive logical positions starting at `from`. */
  ghost function Slots(storage: seq<byte>, from: nat, count: nat): seq<byte>
    requires 0 < |storage|
  {
    seq(count, k requires 0 <= k < count => storage[(from + k) % |storage|])
  }

  /** The bytes written and not yet read, oldest first. */
  ghost function Unread(q: Ring): seq<byte>
    requires Valid(q)
  {
    Slots(q.storage, q.readPos, q.writePos - q.readPos)
  }

  /** `write_count()`: the length of the writable contiguous region at `writePos % cap`. */
  function WriteCount(cap: nat, readPos: nat, writePos: nat): (n: nat)
    requires 0 < cap && readPos <= writePos <= readPos + cap
    ensures n <= cap - (writePos - readPos)
    ensures writePos % cap + n <= cap
    ensures n == 0 <==> writePos - readPos == cap
    ensures n == cap - (writePos - readPos) || writePos % cap + n == cap
  {
    Min(cap - (writePos - readPos), cap - writePos % cap)
  }

  /** `read_count()`: the length of the readable contiguous region at `readPos % cap`. */
  function ReadCount(cap: nat, readPos: nat, writePos: nat): (n: nat)
    requires 0 < cap && readPos <= writePos
    ensures n <= writePos - readPos
    ensures readPos % cap + n <= cap
    ensures n == 0 <==> readPos == writePos
    ensures n == writePos - readPos || readPos % cap + n == cap
  {
    Min(writePos - readPos, cap - readPos % cap)
  }

  /** `did_write(count)`: commits `count` bytes already placed in storage. */
  function DidWrite(q: Ring, count: nat): (r: Ring)
    requires Valid(q)
    requires q.writePos + count <= q.readPos + |q.storage|
    ensures Valid(r)
    ensures r.storage == q.storage && r.readPos == q.readPos
    ensures r.writePos - r.readPos == q.writePos - q.readPos + count
  {
    q.(writePos := q.writePos + count)
  }

  /** `did_read(count)`: consumes `count` bytes, then normalizes both counters
      by the capacity once the read counter reaches it. */
  function DidRead(q: Ring, count: nat): (r: Ring)
    requires Valid(q)
    requires q.readPos + count <= q.writePos
    ensures Valid(r)
    ensures r.storage == q.storage
    ensures r.readPos == (q.readPos + count) % |q.storage|
    ensures r.writePos - r.readPos + count == q.writePos - q.readPos
  {
    var readPos := q.readPos + count;
    if readPos >= |q.storage| then
      ModWrap(readPos, |q.storage|);
      q.(readPos := readPos - |q.storage|, writePos := q.writePos - |q.storage|)
    else
      ModBelow(readPos, |q.storage|);
      q.(readPos := readPos)
  }

  /** `write_some(data, |data|)`: copies as much of `data` as the writable
      region holds, then commits it. Returns the new state and the count. */
  function WriteSome(q: Ring, data: seq<byte>): (Ring, nat)
    requires Valid(q)
  {
    var cap := |q.storage|;
    var n := Min(|data|, WriteCount(cap, q.readPos, q.writePos));
    var at := q.writePos % cap;
    (DidWrite(q.(storage := Store(q.storage, at, data[..n])), n), n)
  }

  /** `read_some(buffer, size)`: copies out up to `size` bytes of the readable
      region, then consumes them. Returns the new state and the bytes. */
  function ReadSome(q: Ring, size: nat): (Ring, seq<byte>)
    requires Valid(q)
  {
    var cap := |q.storage|;
    var n := Min(size, ReadCount(cap, q.readPos, q.writePos));
    var at := q.readPos % cap;
    (DidRead(q, n), q.storage[at..at + n])
  }

  // ---------------------------------------------------------------------------
  // The queue view of each step

  lemma ModBelow(p: nat, cap: nat)
    requires p < cap
    ensures p % cap == p
  {
  }

  /** Counters stay below twice the capacity, where reducing modulo the
      capacity is a single subtraction. */
  lemma ModWrap(p: nat, cap: nat)
    requires 0 < cap <= p < 2 * cap
    ensures p % cap == p - cap
  {
    var d, m := p / cap, p % cap;
    assert p == d * cap + m && 0 <= m < cap;
    assert d >= 2 ==> d * cap >= 2 * cap;
    assert d <= 0 ==> d * cap <= 0;
    assert d == 1;
  }

  /** The storage index of a logical position below twice the capacity. */
  lemma ModIndex(p: nat, cap: nat)
    requires 0 < cap && p < 2 * cap
    ensures p % cap == if p < cap then p else p - cap
  {
    if p < cap { ModBelow(p, cap); } else { ModWrap(p, cap); }
  }

  /** After `did_write(count)` the unread queue has grown by the `count` slots
      that follow the old write position. */
  lemma {:induction false} DidWriteAppends(q: Ring, count: nat)
    requires Valid(q)
    requires q.writePos + count <= q.readPos + |q.storage|
    ensures Unread(DidWrite(q, count)) == Unread(q) + Slots(q.storage, q.writePos, count)
  {
    var r := DidWrite(q, count);
    var size := q.writePos - q.readPos;
    forall k | 0 <= k < size + count
      ensures Unread(r)[k] == (Unread(q) + Slots(q.storage, q.writePos, count))[k]
    {
      if k >= size {
        assert q.readPos + k == q.writePos + (k - size);
      }
    }
  }

  /** Two `did_read` calls in a row leave the ring as one call for both
      counts would. */
  lemma DidReadTwice(q: Ring, a: nat, b: nat)
    requires Valid(q)
    requires q.readPos + a <= q.writePos
    requires DidRead(q, a).readPos + b <= DidRead(q, a).writePos
    ensures q.readPos + a + b <= q.writePos
    ensures DidRead(DidRead(q, a), b) == DidRead(q, a + b)
  {
  }

  /** After `did_read(count)` the unread queue has lost exactly its first
      `count` bytes: normalization moves no byte. */
  lemma {:induction false} DidReadConsumes(q: Ring, count: nat)
    requires Valid(q)
    requires q.readPos + count <= q.writePos
    ensures Unread(DidRead(q, count)) == Unread(q)[count..]
  {
    var r := DidRead(q, count);
    var cap := |q.storage|;
    forall k | 0 <= k < r.writePos - r.readPos
      ensures Unread(r)[k] == Unread(q)[count + k]
    {
      if q.readPos + count >= cap {
        assert r.readPos + k == q.readPos + count + k - cap;
        ModIndex(r.readPos + k, cap);
        ModIndex(q.readPos + count + k, cap);
      }
    }
  }

  /** Copying into the writable region leaves the unread bytes alone, and the
      slots that follow the write position then hold the copied bytes. */
  lemma {:induction false} StoreIntoFree(q: Ring, data: seq<byte>)
    requires Valid(q)
    requires |data| <= WriteCount(|q.storage|, q.readPos, q.writePos)
    ensures var s := Store(q.storage, q.writePos % |q.storage|, data);
            Valid(q.(storage := s)) &&
            Unread(q.(storage := s)) == Unread(q) &&
            Slots(s, q.writePos, |data|) == data
  {
    var cap := |q.storage|;
    var at := q.writePos % cap;
    var s := Store(q.storage, at, data);
    var q' := q.(storage := s);
    forall k | 0 <= k < q.writePos - q.readPos
      ensures Unread(q')[k] == Unread(q)[k]
    {
      ModIndex(q.writePos, cap);
      ModIndex(q.readPos + k, cap);
    }
    forall j | 0 <= j < |data|
      ensures Slots(s, q.writePos, |data|)[j] == data[j]
    {
      ModIndex(q.writePos, cap);
      ModIndex(q.writePos + j, cap);
    }
  }

  /** `write_some` appends exactly the accepted prefix of `data` to the queue,
      accepts `min(|data|, write_count())`, and accepts nothing exactly when
      there is nothing to write or the buffer is full. */
  lemma {:induction false} WriteSomeAppends(q: Ring, data: seq<byte>)
    requires Valid(q)
    ensures var (r, n) := WriteSome(q, data);
            Valid(r) && |r.storage| == |q.storage| &&
            n == Min(|data|, WriteCount(|q.storage|, q.readPos, q.writePos)) &&
            Unread(r) == Unread(q) + data[..n] &&
            (n == 0 <==> |data| == 0 || q.writePos - q.readPos == |q.storage|)
  {
    var cap := |q.storage|;
    var n := Min(|data|, WriteCount(cap, q.readPos, q.writePos));
    var s := Store(q.storage, q.writePos % cap, data[..n]);
    StoreIntoFree(q, data[..n]);
    DidWriteAppends(q.(storage := s), n);
  }

  /** `read_some` hands out exactly the first bytes of the queue and removes
      them; it returns nothing exactly when asked for nothing or empty. */
  lemma {:induction false} ReadSomeTakes(q: Ring, size: nat)
    requires Valid(q)
    ensures var (r, out) := ReadSome(q, size);
            Valid(r) && |r.storage| == |q.storage| &&
            |out| == Min(size, ReadCount(|q.storage|, q.readPos, q.writePos)) &&
            out == Unread(q)[..|out|] &&
            Unread(r) == Unread(q)[|out|..] &&
            (|out| == 0 <==> size == 0 || q.readPos == q.writePos)
  {
    var cap := |q.storage|;
    var n := Min(size, ReadCount(cap, q.readPos, q.writePos));
    var (r, out) := ReadSome(q, size);
    ModBelow(q.readPos, cap);
    forall j | 0 <= j < n
      ensures out[j] == Unread(q)[j]
    {
      ModBelow(q.readPos + j, cap);
    }
    DidReadConsumes(q, n);
  }

  // ---------------------------------------------------------------------------
  // Any interleaving of writes and reads

  datatype Op = Write(data: seq<byte>) | Read(size: nat)

  /** Runs `ops` from `q`: the final state, the bytes the writes accepted and
      the bytes the reads returned, each in call order. */
  ghost function Run(q: Ring, ops: seq<Op>): (Ring, seq<byte>, seq<byte>)
    requires Valid(q)
    decreases |ops|
  {
    if ops == [] then (q, [], [])
    else
      match ops[0]
      case Write(data) =>
        WriteSomeAppends(q, data);
        var (q1, n) := WriteSome(q, data);
        var (qn, accepted, delivered) := Run(q1, ops[1..]);
        (qn, data[..n] + accepted, delivered)
      case Read(size) =>
        ReadSomeTakes(q, size);
        var (q1, out) := ReadSome(q, size);
        var (qn, accepted, delivered) := Run(q1, ops[1..]);
        (qn, accepted, out + delivered)
  }

  /** FIFO: whatever the interleaving, the bytes read followed by the bytes
      still unread are the bytes unread at the start followed by the bytes
      accepted; the capacity never changes and the invariant always holds. */
  lemma {:induction false} RunIsFifo(q: Ring, ops: seq<Op>)
    requires Valid(q)
    ensures var (r, accepted, delivered) := Run(q, ops);
            Valid(r) && |r.storage| == |q.storage| &&
            Unread(q) + accepted == delivered + Unread(r)
    decreases |ops|
  {
    if ops != [] {
      match ops[0]
      case Write(data) =>
        WriteSomeAppends(q, data);
        var (q1, n) := WriteSome(q, data);
        RunIsFifo(q1, ops[1..]);
        var (qn, accepted, delivered) := Run(q1, ops[1..]);
        AppendThen(Unread(q), data[..n], Unread(q1), accepted, delivered, Unread(qn));
      case Read(size) =>
        ReadSomeTakes(q, size);
        var (q1, out) := ReadSome(q, size);
        RunIsFifo(q1, ops[1..]);
        var (qn, accepted, delivered) := Run(q1, ops[1..]);
        TakeThen(Unread(q), out, Unread(q1), accepted, delivered, Unread(qn));
    }
  }

  /** Starting empty, the bytes read are a prefix of the bytes accepted, and
      the unread queue is exactly the rest. */
  lemma ReadsArePrefixOfWrites(q: Ring, ops: seq<Op>)
    requires Valid(q) && q.readPos == q.writePos
    ensures var (r, accepted, delivered) := Run(q, ops);
            Valid(r) && |delivered| <= |accepted| &&
            delivered == accepted[..|delivered|] &&
            Unread(r) == accepted[|delivered|..]
  {
    RunIsFifo(q, ops);
    var (r, accepted, delivered) := Run(q, ops);
    assert Unread(q) == [];
    assert accepted == delivered + Unread(r);
  }
}
