/** The byte streams of `MemoryStreams.cpp`, single-threaded: every lock the
    source takes does nothing when one thread runs, so none appears here.

    `IInputStream` and `IOutputStream` are interfaces in the source; here each is
    the sum of its implementations in this file (`InputStream`, `OutputStream`),
    with a ghost view (`Remaining`, `Contents`) and the contract every
    implementation keeps: `read_some` / `write_some` move at most the requested
    count, and move bytes in order. */
module MemoryStreams {
  import opened Bytes
  import RingModel
  import Cursor

  /** The `std::string` / `std::vector<uint8_t>` that a reader and a writer share. */
  class SharedBuffer {
    var data: seq<byte>

    constructor (data: seq<byte>)
      ensures this.data == data
    {
      this.data := data;
    }
  }

  /** A read cursor over a caller-owned memory region. */
  class MemoryInputStream {
    const buffer: seq<byte>
    var inPosition: nat

    constructor (buffer: seq<byte>)
      ensures this.buffer == buffer && inPosition == 0
    {
      this.buffer := buffer;
      inPosition := 0;
    }

    /** The source's check "jump over the end of buffer". */
    ghost predicate Valid()
      reads this
    {
      inPosition <= |buffer|
    }

    ghost function Remaining(): seq<byte>
      reads this
      requires Valid()
    {
      buffer[inPosition..]
    }

    /** Copies the next `min(size, bytes left)` bytes to `dest[at..]`. */
    method ReadSome(dest: array<byte>, at: nat, size: nat) returns (n: nat)
      requires Valid()
      requires at + size <= dest.Length
      modifies this, dest
      ensures Valid()
      ensures var out := Cursor.Take(buffer, old(inPosition), size);
              n == |out| && inPosition == old(inPosition) + n &&
              dest[..] == Store(old(dest[..]), at, out)
      ensures n <= size && n <= |old(Remaining())|
      ensures dest[..] == Store(old(dest[..]), at, old(Remaining())[..n])
      ensures Remaining() == old(Remaining())[n..]
      ensures n == 0 <==> size == 0 || old(Remaining()) == []
    {
      Cursor.TakeFromRest(buffer, inPosition, size);
      n := Min(size, |buffer| - inPosition);
      ghost var rest := Remaining();
      if n > 0 {
        Memcpy(dest, at, buffer[inPosition..inPosition + n]);
      }
      inPosition := inPosition + n;
      assert Remaining() == rest[n..];
    }
  }

  /** A read cursor over a shared, growable sequence: `StringInputStream` and
      `VectorInputStream` run the same code, over chars and over bytes. */
  class VectorInputStream {
    const input: SharedBuffer
    var inPosition: nat

    constructor (input: SharedBuffer)
      ensures this.input == input && inPosition == 0
    {
      this.input := input;
      inPosition := 0;
    }

    /** The source's check "jump over the end of buffer". */
    ghost predicate Valid()
      reads this, input
    {
      inPosition <= |input.data|
    }

    ghost function Remaining(): seq<byte>
      reads this, input
      requires Valid()
    {
      input.data[inPosition..]
    }

    /** Copies the next `min(size, bytes left)` bytes to `dest[at..]`. */
    method ReadSome(dest: array<byte>, at: nat, size: nat) returns (n: nat)
      requires Valid()
      requires at + size <= dest.Length
      modifies this, dest
      ensures Valid()
      ensures var out := Cursor.Take(input.data, old(inPosition), size);
              n == |out| && inPosition == old(inPosition) + n &&
              dest[..] == Store(old(dest[..]), at, out)
      ensures n <= size && n <= |old(Remaining())|
      ensures dest[..] == Store(old(dest[..]), at, old(Remaining())[..n])
      ensures Remaining() == old(Remaining())[n..]
      ensures n == 0 <==> size == 0 || old(Remaining()) == []
    {
      Cursor.TakeFromRest(input.data, inPosition, size);
      n := Min(size, |input.data| - inPosition);
      ghost var rest := Remaining();
      var chunk := input.data[inPosition..inPosition + n];
      Memcpy(dest, at, chunk);
      inPosition := inPosition + n;
      assert Remaining() == rest[n..];
    }

    /** One pass of `copy_to`'s loop: offers the sink the next `rc` bytes and
      moves past what it took. */
    method Offer(out: OutputStream, rc: nat) returns (count: nat)
      requires Valid() && out.Valid()
      requires this !in out.Repr() && input !in out.Repr()
      requires 0 < rc <= |input.data| - inPosition
      modifies this, out.Repr()
      ensures Valid() && out.Valid()
      ensures count <= rc && inPosition == old(inPosition) + count
      ensures out.Contents() == old(out.Contents()) + input.data[old(inPosition)..inPosition]
      ensures count == 0 ==> out.Full()
      ensures out.ReadMark() == old(out.ReadMark()) && out.WriteMark() == old(out.WriteMark()) + count
    {
      count := out.WriteSome(input.data[inPosition..inPosition + rc]);
      inPosition := inPosition + count;
    }

    /** Hands the sink the rest of the sequence, at most `maxCount` bytes, and
      stops when nothing is left, `maxCount` is used up, or the sink takes 0. */
    method CopyTo(out: OutputStream, maxCount: nat) returns (total: nat)
      requires Valid() && out.Valid()
      requires this !in out.Repr() && input !in out.Repr()
      modifies this, out.Repr()
      ensures Valid() && out.Valid()
      ensures total <= maxCount
      ensures inPosition == old(inPosition) + total
      ensures out.Contents() == old(out.Contents()) + input.data[old(inPosition)..inPosition]
      ensures total == maxCount || inPosition == |input.data| || out.Full()
      ensures out.ReadMark() == old(out.ReadMark()) && out.WriteMark() == old(out.WriteMark()) + total
    {
      ghost var start, sunk, read := inPosition, out.Contents(), out.ReadMark();
      total := 0;
      var maxLeft := maxCount;
      while true
        invariant Valid() && out.Valid()
        invariant total + maxLeft == maxCount
        invariant inPosition == start + total
        invariant out.Contents() == sunk + input.data[start..inPosition]
        invariant out.ReadMark() == read
        decreases maxLeft
      {
        var rc := Min(|input.data| - inPosition, maxLeft);
        if rc == 0 {
          break;
        }
        ghost var mid := inPosition;
        var count := Offer(out, rc);
        Extend(sunk, input.data, start, mid, inPosition);
        maxLeft := maxLeft - count;
        total := total + count;
        if count == 0 {
          break;
        }
      }
    }
  }

  /** An append-only writer on a shared sequence: `StringOutputStream` and
      `VectorOutputStream` run the same code. It always takes everything. */
  class VectorOutputStream {
    const output: SharedBuffer

    constructor (output: SharedBuffer)
      ensures this.output == output
    {
      this.output := output;
    }

    method WriteSome(data: seq<byte>) returns (n: nat)
      modifies output
      ensures output.data == old(output.data) + data
      ensures n == |data|
    {
      output.data := output.data + data;
      n := |data|;
    }
  }

  /** The fixed-capacity ring. `readPos` and `writePos` are not reduced modulo
      the capacity; `did_read` subtracts the capacity from both once `readPos`
      reaches it. The ghost view is `RingModel`'s: `DidWrite`, `DidRead`,
      `WriteSome` and `ReadSome` are proved against the function of the same
      name there, and the copy loops and their passes against the queue of
      unread bytes, through the loop-state predicates `Filled` and `Drained`. */
  class CircularBuffer {
    const impl: array<byte>
    var readPos: nat
    var writePos: nat

    ghost function State(): RingModel.Ring
      reads this, impl
    {
      RingModel.Ring(impl[..], readPos, writePos)
    }

    ghost predicate Valid()
      reads this, impl
    {
      RingModel.Valid(State())
    }

    ghost function Unread(): seq<byte>
      reads this, impl
      requires Valid()
    {
      RingModel.Unread(State())
    }

    constructor (capacity: nat)
      requires 0 < capacity
      ensures Valid() && fresh(impl) && impl.Length == capacity
      ensures readPos == 0 && writePos == 0 && Unread() == []
    {
      impl := new byte[capacity];
      readPos, writePos := 0, 0;
    }

    /** Commits `count` bytes placed at the write position; the source's check
      "Writing past end of Buffer" is the precondition. */
    method DidWrite(count: nat)
      requires Valid()
      requires writePos + count <= readPos + impl.Length
      modifies this
      ensures State() == RingModel.DidWrite(old(State()), count)
      ensures Valid() && Unread() == old(Unread()) + RingModel.Slots(impl[..], old(writePos), count)
    {
      writePos := writePos + count;
      RingModel.DidWriteAppends(old(State()), count);
    }

    /** Consumes `count` bytes and normalizes the counters; the source's check
      "Reading past end of Buffer" is the precondition. */
    method DidRead(count: nat)
      requires Valid()
      requires readPos + count <= writePos
      modifies this
      ensures State() == RingModel.DidRead(old(State()), count)
      ensures Valid() && Unread() == old(Unread())[count..]
    {
      readPos := readPos + count;
      if readPos >= impl.Length {
        readPos := readPos - impl.Length;
        writePos := writePos - impl.Length;
      }
      RingModel.DidReadConsumes(old(State()), count);
    }

    method WriteSome(data: seq<byte>) returns (n: nat)
      requires Valid()
      modifies this, impl
      ensures (State(), n) == RingModel.WriteSome(old(State()), data)
      ensures Valid() && Unread() == old(Unread()) + data[..n]
      ensures readPos == old(readPos) && writePos == old(writePos) + n
      ensures n == Min(|data|, RingModel.WriteCount(impl.Length, old(readPos), old(writePos)))
      ensures n == 0 <==> |data| == 0 || old(writePos - readPos) == impl.Length
    {
      n := Min(|data|, RingModel.WriteCount(impl.Length, readPos, writePos));
      Memcpy(impl, writePos % impl.Length, data[..n]);
      DidWrite(n);
      RingModel.WriteSomeAppends(old(State()), data);
    }

    method ReadSome(dest: array<byte>, at: nat, size: nat) returns (n: nat)
      requires Valid()
      requires at + size <= dest.Length && dest != impl
      modifies this, dest
      ensures var (q, out) := RingModel.ReadSome(old(State()), size);
              State() == q && n == |out| && dest[..] == Store(old(dest[..]), at, out)
      ensures Valid() && n <= |old(Unread())|
      ensures readPos == (old(readPos) + n) % impl.Length
      ensures writePos - readPos == old(writePos - readPos) - n
      ensures n == Min(size, RingModel.ReadCount(impl.Length, old(readPos), old(writePos)))
      ensures dest[..] == Store(old(dest[..]), at, old(Unread())[..n])
      ensures Unread() == old(Unread())[n..]
      ensures n == 0 <==> size == 0 || old(Unread()) == []
    {
      ghost var before := State();
      RingModel.ReadSomeTakes(before, size);
      n := Min(size, RingModel.ReadCount(impl.Length, readPos, writePos));
      var from := readPos % impl.Length;
      var chunk := impl[from..from + n];
      assert chunk == RingModel.ReadSome(before, size).1;
      Memcpy(dest, at, chunk);
      DidRead(n);
    }

    /** What `copy_from`'s loop keeps: the ring's unread bytes followed by
      the source's remaining ones are still `unread + pending`, as when the
      loop began with the counters at `start` and `written`; `taken` bytes
      have moved across, and the source has read them from an unchanged
      `backing`: past position `from`, or by `did_read` on a ring source
      that stood at `origin`. The loop's starting state is passed as separate
      ghost values rather than one record: the solver then sees each fact
      directly, which keeps the loop's proof well within its cost limit. */
    ghost predicate Filled(src: InputStream, start: nat, written: nat, unread: seq<byte>,
                           pending: seq<byte>, backing: seq<byte>, from: nat,
                           origin: RingModel.Ring, taken: nat)
      reads this, impl, src.Repr()
    {
      Valid() && src.Valid() && readPos == start && writePos == written + taken &&
      |unread| <= |Unread()| && Unread() + src.Remaining() == unread + pending &&
      src.Backing() == backing && src.Moved(from, origin, taken)
    }

    /** One pass of `copy_from`'s loop: reads from `src` into the writable
      region and commits what arrived. */
    method FillRegion(src: InputStream, wc: nat, ghost start: nat, ghost written: nat,
                      ghost unread: seq<byte>, ghost pending: seq<byte>, ghost backing: seq<byte>,
                      ghost from: nat, ghost origin: RingModel.Ring, ghost taken: nat)
      returns (count: nat)
      requires Filled(src, start, written, unread, pending, backing, from, origin, taken)
      requires this !in src.Repr() && impl !in src.Repr()
      requires 0 < wc == RingModel.WriteCount(impl.Length, readPos, writePos)
      modifies this, impl, src.Cursor()
      ensures count <= wc && Filled(src, start, written, unread, pending, backing, from, origin, taken + count)
      ensures count == 0 <==> old(src.Remaining()) == []
      ensures count == 0 ==> src.Remaining() == []
    {
      ghost var before, u, rest := State(), Unread(), src.Remaining();
      count := src.ReadSome(impl, writePos % impl.Length, wc);
      RingModel.StoreIntoFree(before, rest[..count]);
      DidWrite(count);
      SplitAt(u, rest, count);
      if src.RingSource? {
        RingModel.DidReadTwice(origin, taken, count);
      }
    }

    /** Fills the ring from `src`, one contiguous region at a time, until the
      ring is full or the source returns nothing. */
    method CopyFrom(src: InputStream)
      requires Valid() && src.Valid()
      requires this !in src.Repr() && impl !in src.Repr()
      modifies this, impl, src.Cursor()
      ensures Valid() && src.Valid()
      ensures readPos == old(readPos) && |old(Unread())| <= |Unread()|
      ensures Unread() + src.Remaining() == old(Unread()) + old(src.Remaining())
      ensures writePos - readPos == impl.Length || src.Remaining() == []
      ensures src.Backing() == old(src.Backing())
      ensures src.Moved(old(src.Position()), old(src.Snapshot()), writePos - old(writePos))
    {
      ghost var start, written, unread, pending := readPos, writePos, Unread(), src.Remaining();
      ghost var backing, from, origin, taken := src.Backing(), src.Position(), src.Snapshot(), 0;
      while true
        invariant Filled(src, start, written, unread, pending, backing, from, origin, taken)
        decreases impl.Length - (writePos - readPos)
      {
        var wc := RingModel.WriteCount(impl.Length, readPos, writePos);
        if wc == 0 {
          break;
        }
        var count := FillRegion(src, wc, start, written, unread, pending, backing, from, origin, taken);
        taken := taken + count;
        if count == 0 {
          break;
        }
      }
    }

    /** The first `count` unread bytes, which lie in one run of the storage
      when `count` is at most `read_count()`. */
    function Front(count: nat): (chunk: seq<byte>)
      reads this, impl
      requires Valid() && count <= RingModel.ReadCount(impl.Length, readPos, writePos)
      ensures chunk == Unread()[..count]
    {
      RingModel.ReadSomeTakes(State(), count);
      impl[readPos % impl.Length..readPos % impl.Length + count]
    }

    /** What `copy_to`'s loop keeps: of the bytes `unread` that the ring held
      in state `origin`, the first `done` have been appended to the sink
      after `sunk`, and the rest are still unread; the ring has done
      `did_read(done)`, and the sink's read counter is still `read`. */
    ghost predicate Drained(out: OutputStream, origin: RingModel.Ring, unread: seq<byte>,
                            sunk: seq<byte>, read: nat, done: nat)
      reads this, impl, out.Repr()
    {
      Valid() && out.Valid() && done <= |unread| &&
      out.Contents() == sunk + unread[..done] && Unread() == unread[done..] &&
      RingModel.Valid(origin) && origin.readPos + done <= origin.writePos &&
      State() == RingModel.DidRead(origin, done) && out.ReadMark() == read
    }

    /** One pass of `copy_to`'s loop: offers the sink the first `rc` unread
      bytes, which lie in one contiguous region, and consumes what it took. */
    method DrainRegion(out: OutputStream, rc: nat, ghost origin: RingModel.Ring,
                       ghost unread: seq<byte>, ghost sunk: seq<byte>, ghost read: nat, ghost done: nat)
      returns (count: nat)
      requires Drained(out, origin, unread, sunk, read, done)
      requires this !in out.Repr() && impl !in out.Repr()
      requires 0 < rc <= RingModel.ReadCount(impl.Length, readPos, writePos)
      modifies this, out.Repr()
      ensures count <= rc && Drained(out, origin, unread, sunk, read, done + count)
      ensures count == 0 ==> out.Full()
    {
      count := out.WriteSome(Front(rc));
      DidRead(count);
      Consume(sunk, unread, done, count);
      RingModel.DidReadTwice(origin, done, count);
    }

    /** Hands the sink the oldest unread bytes, at most `maxCount`, one
      contiguous region at a time; stops when the ring is empty, `maxCount`
      is used up, or the sink takes 0. */
    method CopyTo(out: OutputStream, maxCount: nat) returns (total: nat)
      requires Valid() && out.Valid()
      requires this !in out.Repr() && impl !in out.Repr()
      modifies this, out.Repr()
      ensures Valid() && out.Valid()
      ensures total <= maxCount && total <= |old(Unread())|
      ensures out.Contents() == old(out.Contents()) + old(Unread())[..total]
      ensures Unread() == old(Unread())[total..]
      ensures State() == RingModel.DidRead(old(State()), total)
      ensures total == maxCount || Unread() == [] || out.Full()
      ensures out.ReadMark() == old(out.ReadMark()) && out.WriteMark() == old(out.WriteMark()) + total
    {
      ghost var origin, unread, sunk, read := State(), Unread(), out.Contents(), out.ReadMark();
      total := 0;
      var maxLeft := maxCount;
      while true
        invariant total + maxLeft == maxCount
        invariant Drained(out, origin, unread, sunk, read, total)
        decreases maxLeft
      {
        var rc := Min(RingModel.ReadCount(impl.Length, readPos, writePos), maxLeft);
        if rc == 0 {
          break;
        }
        var count := DrainRegion(out, rc, origin, unread, sunk, read, total);
        maxLeft := maxLeft - count;
        total := total + count;
        if count == 0 {
          break;
        }
      }
    }
  }

  /** `IInputStream`: the sources a ring can be filled from. */
  datatype InputStream =
    | MemorySource(memory: MemoryInputStream)
    | VectorSource(vector: VectorInputStream)
    | RingSource(ring: CircularBuffer)
  {
    ghost function Repr(): set<object>
    {
      match this
      case MemorySource(m) => {m}
      case VectorSource(v) => {v, v.input}
      case RingSource(c) => {c, c.impl}
    }

    /** The part of `Repr()` a read updates: the stream object with its
      position, never the bytes it reads from. */
    ghost function Cursor(): set<object>
    {
      match this
      case MemorySource(m) => {m}
      case VectorSource(v) => {v}
      case RingSource(c) => {c}
    }

    /** The part of `Repr()` that holds the bytes: a read leaves it alone. */
    ghost function Storage(): set<object>
    {
      match this
      case MemorySource(_) => {}
      case VectorSource(v) => {v.input}
      case RingSource(c) => {c.impl}
    }

    ghost predicate Valid()
      reads Repr()
    {
      match this
      case MemorySource(m) => m.Valid()
      case VectorSource(v) => v.Valid()
      case RingSource(c) => c.Valid()
    }

    /** The bytes this source has yet to hand out, in order. */
    ghost function Remaining(): seq<byte>
      reads Repr()
      requires Valid()
    {
      match this
      case MemorySource(m) => m.Remaining()
      case VectorSource(v) => v.Remaining()
      case RingSource(c) => c.Unread()
    }

    /** Where the source reads next: the input position of a memory or vector
      source, the read counter of a ring. */
    ghost function Position(): nat
      reads Cursor()
    {
      match this
      case MemorySource(m) => m.inPosition
      case VectorSource(v) => v.inPosition
      case RingSource(c) => c.readPos
    }

    /** What the source reads from: the region, the shared sequence, or the
      ring's storage. Reading never changes it. */
    ghost function Backing(): seq<byte>
      reads Storage()
    {
      match this
      case MemorySource(m) => m.buffer
      case VectorSource(v) => v.input.data
      case RingSource(c) => c.impl[..]
    }

    /** A ring source's whole state. The other sources have none beyond
      their position and give an empty ring, which is not `RingModel.Valid`;
      `Moved` reads the snapshot only under `RingSource?`. */
    ghost function Snapshot(): RingModel.Ring
      reads Repr()
    {
      match this
      case RingSource(c) => c.State()
      case _ => RingModel.Ring([], 0, 0)
    }

    /** The source has handed out `k` more bytes since its position was
      `from`: a memory or vector source's position has grown by `k`, and a
      ring source that stood at `origin` has done `did_read(k)`. */
    ghost predicate Moved(from: nat, origin: RingModel.Ring, k: nat)
      reads Repr()
    {
      match this
      case MemorySource(m) => m.inPosition == from + k
      case VectorSource(v) => v.inPosition == from + k
      case RingSource(c) =>
        RingModel.Valid(origin) && origin.readPos + k <= origin.writePos &&
        c.State() == RingModel.DidRead(origin, k)
    }

    /** `read_some`: the next bytes, at most `size`, and none only at the end. */
    method ReadSome(dest: array<byte>, at: nat, size: nat) returns (n: nat)
      requires Valid()
      requires at + size <= dest.Length && dest !in Repr()
      modifies Cursor(), dest
      ensures Valid()
      ensures n <= size && n <= |old(Remaining())|
      ensures dest[..] == Store(old(dest[..]), at, old(Remaining())[..n])
      ensures Remaining() == old(Remaining())[n..]
      ensures n == 0 <==> size == 0 || old(Remaining()) == []
      ensures MemorySource? ==> memory.inPosition == old(memory.inPosition) + n
      ensures VectorSource? ==>
        vector.input.data == old(vector.input.data) && vector.inPosition == old(vector.inPosition) + n
      ensures Moved(old(Position()), old(Snapshot()), n)
      ensures RingSource? ==>
        ring.impl[..] == old(ring.impl[..]) &&
        ring.readPos == (old(ring.readPos) + n) % ring.impl.Length &&
        ring.writePos - ring.readPos == old(ring.writePos - ring.readPos) - n
    {
      match this
      case MemorySource(m) =>
        n := m.ReadSome(dest, at, size);
      case VectorSource(v) =>
        n := v.ReadSome(dest, at, size);
      case RingSource(c) =>
        n := c.ReadSome(dest, at, size);
    }
  }

  /** `IOutputStream`: the sinks a stream can be copied to. */
  datatype OutputStream =
    | VectorSink(vector: VectorOutputStream)
    | RingSink(ring: CircularBuffer)
  {
    ghost function Repr(): set<object>
    {
      match this
      case VectorSink(v) => {v.output}
      case RingSink(c) => {c, c.impl}
    }

    ghost predicate Valid()
      reads Repr()
    {
      match this
      case VectorSink(_) => true
      case RingSink(c) => c.Valid()
    }

    /** The bytes this sink has accepted and still holds, in order. */
    ghost function Contents(): seq<byte>
      reads Repr()
      requires Valid()
    {
      match this
      case VectorSink(v) => v.output.data
      case RingSink(c) => c.Unread()
    }

    /** A sink that takes nothing more: only a full ring. */
    ghost predicate Full()
      reads Repr()
      requires Valid()
    {
      match this
      case VectorSink(_) => false
      case RingSink(c) => c.writePos - c.readPos == c.impl.Length
    }

    /** The sink's read counter: a ring's `readPos`; a vector is never read. */
    ghost function ReadMark(): nat
      reads Repr()
    {
      match this
      case VectorSink(_) => 0
      case RingSink(c) => c.readPos
    }

    /** The sink's write counter: a ring's `writePos`, a vector's length. It
      runs ahead of the read counter by exactly what the sink holds. */
    ghost function WriteMark(): (w: nat)
      reads Repr()
      requires Valid()
      ensures w == ReadMark() + |Contents()|
    {
      match this
      case VectorSink(v) => |v.output.data|
      case RingSink(c) => c.writePos
    }

    /** `write_some`: takes a prefix of `data`, and takes nothing only when
      offered nothing or full. */
    method WriteSome(data: seq<byte>) returns (n: nat)
      requires Valid()
      modifies Repr()
      ensures Valid()
      ensures n <= |data|
      ensures Contents() == old(Contents()) + data[..n]
      ensures n == 0 <==> |data| == 0 || old(Full())
      ensures n == 0 ==> Full() == old(Full())
      ensures RingSink? ==> ring.readPos == old(ring.readPos) && ring.writePos == old(ring.writePos) + n
      ensures ReadMark() == old(ReadMark()) && WriteMark() == old(WriteMark()) + n
    {
      match this
      case VectorSink(v) =>
        n := v.WriteSome(data);
        assert data[..n] == data;
      case RingSink(c) =>
        n := c.WriteSome(data);
    }
  }
}
