/** Concrete runs of the streams. Every count, byte and counter they end
    with is proved from the contracts of the operations they call. */
module Scenarios {
  import opened Bytes
  import RingModel
  import MemoryStreams

  /** A ring of capacity 8. It takes "ABCDE", hands out "ABC" and is then offered
      "FGHIJK" twice. The first offer stops at the end of the storage block and
      the second offer wraps to its start. Copying the ring into a vector
      drains all of "DEFGHIJK" across the wrap point, and the counters come to
      rest at 3 after the normalization in `did_read`. */
  method WrapAroundTrace() returns (first: nat, taken: seq<byte>, second: nat, third: nat,
                                    total: nat, sunk: seq<byte>, readPos: nat, writePos: nat)
    ensures first == 5 && taken == [0x41, 0x42, 0x43]
    ensures second == 3 && third == 3
    ensures total == 8 && sunk == [0x44, 0x45, 0x46, 0x47, 0x48, 0x49, 0x4A, 0x4B]
    ensures readPos == 3 && writePos == 3
  {
    var ring := new MemoryStreams.CircularBuffer(8);
    first, taken := WriteThenRead(ring);
    second, third := OfferPastTheEnd(ring);
    total, sunk := DrainIntoVector(ring, 100);
    RingModel.ModWrap(3 + 8, 8);
    readPos, writePos := ring.readPos, ring.writePos;
  }

  /** A ring of capacity 8 takes "ABCDE" and hands out "ABC", then takes "FGH",
      which fills the writable region exactly up to the end of the block.
      `copy_to` with a limit of 100 then hands over all of "DEFGH", and
      `did_read` normalizes both counters to 0. */
  method ExactFitTrace() returns (first: nat, taken: seq<byte>, second: nat,
                                  total: nat, sunk: seq<byte>, readPos: nat, writePos: nat)
    ensures first == 5 && taken == [0x41, 0x42, 0x43] && second == 3
    ensures total == 5 && sunk == [0x44, 0x45, 0x46, 0x47, 0x48]
    ensures readPos == 0 && writePos == 0
  {
    var ring := new MemoryStreams.CircularBuffer(8);
    first, taken := WriteThenRead(ring);
    second := FillToTheEnd(ring);
    total, sunk := DrainIntoVector(ring, 100);
    RingModel.ModWrap(3 + 5, 8);
    readPos, writePos := ring.readPos, ring.writePos;
  }

  /** The middle of `ExactFitTrace`: "FGH" offered to a ring holding "DE" at
      slots 3 and 4 lands in slots 5 to 7, and the write counter reaches 8. */
  method FillToTheEnd(ring: MemoryStreams.CircularBuffer) returns (second: nat)
    requires ring.Valid() && ring.impl.Length == 8 && ring.readPos == 3 && ring.writePos == 5
    requires ring.Unread() == [0x44, 0x45]
    modifies ring, ring.impl
    ensures second == 3
    ensures ring.Valid() && ring.readPos == 3 && ring.writePos == 8
    ensures ring.Unread() == [0x44, 0x45, 0x46, 0x47, 0x48]
  {
    second := ring.WriteSome([0x46, 0x47, 0x48]);
    assert second == 3;
  }

  /** The first steps of `WrapAroundTrace` and `ExactFitTrace`: "ABCDE" in, "ABC" out. */
  method WriteThenRead(ring: MemoryStreams.CircularBuffer) returns (first: nat, taken: seq<byte>)
    requires ring.Valid() && ring.impl.Length == 8 && ring.readPos == 0 && ring.writePos == 0
    modifies ring, ring.impl
    ensures first == 5 && taken == [0x41, 0x42, 0x43]
    ensures ring.Valid() && ring.readPos == 3 && ring.writePos == 5 && ring.Unread() == [0x44, 0x45]
  {
    first := ring.WriteSome([0x41, 0x42, 0x43, 0x44, 0x45]);
    assert first == 5;
    var dest := new byte[3];
    var n := ring.ReadSome(dest, 0, 3);
    assert n == 3;
    taken := dest[..];
  }

  /** The middle of `WrapAroundTrace`: "FGHIJK" offered to a ring holding "DE" at
      slots 3 and 4. The writable region ends at slot 7, so "FGH" goes in; the
      rest is offered again and "IJK" goes into slots 0 to 2. */
  method OfferPastTheEnd(ring: MemoryStreams.CircularBuffer) returns (second: nat, third: nat)
    requires ring.Valid() && ring.impl.Length == 8 && ring.readPos == 3 && ring.writePos == 5
    requires ring.Unread() == [0x44, 0x45]
    modifies ring, ring.impl
    ensures second == 3 && third == 3
    ensures ring.Valid() && ring.readPos == 3 && ring.writePos == 11
    ensures ring.Unread() == [0x44, 0x45, 0x46, 0x47, 0x48, 0x49, 0x4A, 0x4B]
  {
    var fghijk: seq<byte> := [0x46, 0x47, 0x48, 0x49, 0x4A, 0x4B];
    second := ring.WriteSome(fghijk);
    assert second == 3;
    third := ring.WriteSome(fghijk[second..]);
    assert third == 3;
  }

  /** A ring of capacity 4 whose counters stand at 2 is filled from a 5-byte
      memory region. `copy_from` stops full with the counters at 2 and 6, so
      the four bytes it took sit in slots 2, 3, 0 and 1, across the end of the
      block. The fifth byte stays in the source, and copying the ring out
      yields the other four in order. */
  method FillFromMemoryTrace() returns (held: seq<byte>, last: nat, left: seq<byte>)
    ensures held == [0x57, 0x58, 0x59, 0x5A]
    ensures last == 1 && left == [0x56]
  {
    var ring := new MemoryStreams.CircularBuffer(4);
    WriteThenReadTwo(ring);
    var memory := new MemoryStreams.MemoryInputStream([0x57, 0x58, 0x59, 0x5A, 0x56]);
    FillUntilFull(ring, memory);
    var n;
    n, held := DrainIntoVector(ring, 10);
    var rest := new byte[3];
    last := memory.ReadSome(rest, 0, 3);
    left := rest[..last];
  }

  /** The first steps of `FillFromMemoryTrace`: two bytes in and out, which
      leaves the ring empty with both counters at 2. */
  method WriteThenReadTwo(ring: MemoryStreams.CircularBuffer)
    requires ring.Valid() && ring.impl.Length == 4 && ring.readPos == 0 && ring.writePos == 0
    modifies ring, ring.impl
    ensures ring.Valid() && ring.readPos == 2 && ring.writePos == 2 && ring.Unread() == []
  {
    var n := ring.WriteSome([0x61, 0x62]);
    var dest := new byte[2];
    n := ring.ReadSome(dest, 0, 2);
    assert n == 2;
  }

  /** The middle of `FillFromMemoryTrace`: `copy_from` on an empty ring whose
      counters stand at 2, from a 5-byte region, moves only the write counter,
      to 6. */
  method FillUntilFull(ring: MemoryStreams.CircularBuffer, memory: MemoryStreams.MemoryInputStream)
    requires ring.Valid() && ring.impl.Length == 4 && ring.readPos == 2 && ring.writePos == 2
    requires ring.Unread() == []
    requires memory.buffer == [0x57, 0x58, 0x59, 0x5A, 0x56] && memory.inPosition == 0
    modifies ring, ring.impl, memory
    ensures ring.Valid() && memory.Valid()
    ensures ring.Unread() == [0x57, 0x58, 0x59, 0x5A] && memory.Remaining() == [0x56]
    ensures ring.readPos == 2 && ring.writePos == 6
  {
    var src := MemoryStreams.MemorySource(memory);
    ring.CopyFrom(src);
    assert |ring.Unread()| == 4;
    Conserve(ring.Unread(), src.Remaining(), [], [0x57, 0x58, 0x59, 0x5A, 0x56], 4);
  }

  /** `copy_to` with a fresh vector as the sink and a limit of at least the
      capacity: the vector never refuses, so the ring empties completely. */
  method DrainIntoVector(ring: MemoryStreams.CircularBuffer, limit: nat) returns (total: nat, sunk: seq<byte>)
    requires ring.Valid() && ring.impl.Length <= limit
    modifies ring
    ensures ring.Valid() && total == |old(ring.Unread())| && sunk == old(ring.Unread())
    ensures ring.Unread() == [] && ring.writePos == ring.readPos
    ensures ring.readPos == (old(ring.readPos) + total) % ring.impl.Length
  {
    var shared := new MemoryStreams.SharedBuffer([]);
    var sink := new MemoryStreams.VectorOutputStream(shared);
    total := ring.CopyTo(MemoryStreams.VectorSink(sink), limit);
    sunk := shared.data;
    assert |ring.Unread()| == ring.writePos - ring.readPos;
  }
  /** A ring of capacity 4 whose counters stand at 2 is filled from a vector
      reader over "abc", then topped up by a second reader over the same
      vector. The vector itself is never changed; the first reader ends at the
      end of it, the second after one byte; the ring's read counter stays at 2
      while its write counter runs on to 6. */
  method SharedVectorTrace() returns (data: seq<byte>, first: nat, second: nat, total: nat,
                                      readPos: nat, writePos: nat)
    ensures data == [0x61, 0x62, 0x63] && first == 3 && second == 1 && total == 1
    ensures readPos == 2 && writePos == 6
  {
    var ring := new MemoryStreams.CircularBuffer(4);
    WriteThenReadTwo(ring);
    var shared := new MemoryStreams.SharedBuffer([0x61, 0x62, 0x63]);
    var reader := new MemoryStreams.VectorInputStream(shared);
    FillFromVector(ring, reader);
    var again := new MemoryStreams.VectorInputStream(shared);
    total := TopUpFromVector(ring, again);
    data, first, second := shared.data, reader.inPosition, again.inPosition;
    readPos, writePos := ring.readPos, ring.writePos;
  }

  /** The first copy of `SharedVectorTrace`: `copy_from` a 3-byte vector into an
      empty ring with room for 4 takes all of it and leaves the vector as it was. */
  method FillFromVector(ring: MemoryStreams.CircularBuffer, reader: MemoryStreams.VectorInputStream)
    requires ring.Valid() && ring.impl.Length == 4 && ring.readPos == 2 && ring.writePos == 2
    requires ring.Unread() == [] && reader !in {ring, ring.impl} && reader.input !in {ring, ring.impl}
    requires reader.input.data == [0x61, 0x62, 0x63] && reader.inPosition == 0
    modifies ring, ring.impl, reader
    ensures ring.Valid() && ring.readPos == 2 && ring.writePos == 5
    ensures ring.Unread() == [0x61, 0x62, 0x63]
    ensures reader.input.data == [0x61, 0x62, 0x63] && reader.inPosition == 3
  {
    var src := MemoryStreams.VectorSource(reader);
    ring.CopyFrom(src);
    assert |ring.Unread()| + |src.Remaining()| == 3;
    Conserve(ring.Unread(), src.Remaining(), [], [0x61, 0x62, 0x63], 3);
  }

  /** The second copy of `SharedVectorTrace`: a fresh reader over the same vector
      offers it to the ring as a sink, which has one free slot and takes "a";
      the ring's read counter does not move. */
  method TopUpFromVector(ring: MemoryStreams.CircularBuffer, again: MemoryStreams.VectorInputStream)
    returns (total: nat)
    requires ring.Valid() && ring.impl.Length == 4 && ring.readPos == 2 && ring.writePos == 5
    requires ring.Unread() == [0x61, 0x62, 0x63] && again !in {ring, ring.impl}
    requires again.input !in {ring, ring.impl}
    requires again.input.data == [0x61, 0x62, 0x63] && again.inPosition == 0
    modifies ring, ring.impl, again
    ensures total == 1 && again.inPosition == 1 && again.input.data == [0x61, 0x62, 0x63]
    ensures ring.Valid() && ring.readPos == 2 && ring.writePos == 6
    ensures ring.Unread() == [0x61, 0x62, 0x63, 0x61]
  {
    var sink := MemoryStreams.RingSink(ring);
    total := again.CopyTo(sink, 100);
    assert ring.Unread() == [0x61, 0x62, 0x63] + again.input.data[0..total];
  }
}
