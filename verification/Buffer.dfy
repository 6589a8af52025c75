/** src/base/buffer.h and src/base/buffer.cc: a byte queue in one array, with room in front for prepending.
    `Contents` is the queue; every method says what it does to the queue, so any sequence of calls refines it.
    The results of readv and write are arguments. */
module Buffers {

  type Byte = b: int | 0 <= b < 256

  const CHEAP_PREPEND: nat := 8
  const INITIAL_SIZE: nat := 1024
  const EXTRA_SIZE: nat := 65535

  datatype ReadResult = ReadFailed | Received(bytes: seq<Byte>)

  class Buffer {
    var data: array<Byte>
    var reader: nat
    var writer: nat

    ghost predicate Valid()
      reads this
    {
      reader <= writer <= data.Length && CHEAP_PREPEND <= data.Length
    }

    ghost function Contents(): seq<Byte>
      reads this, data
      requires Valid()
    {
      data[reader..writer]
    }

    constructor (initialSize: nat := INITIAL_SIZE)
      ensures Valid() && fresh(data) && Contents() == []
      ensures Writable() == initialSize && reader == CHEAP_PREPEND
    {
      data := new Byte[CHEAP_PREPEND + initialSize](_ => 0);
      reader, writer := CHEAP_PREPEND, CHEAP_PREPEND;
    }

    function Readable(): (n: nat)
      reads this
      requires Valid()
      ensures n == |Contents()|
    {
      writer - reader
    }

    function Writable(): nat
      reads this
      requires Valid()
    {
      data.Length - writer
    }

    method Retrieve(len: nat)
      requires Valid() && len <= Readable()
      modifies this
      ensures Valid() && data == old(data)
      ensures Contents() == old(Contents())[len..]
      ensures Readable() == 0 ==> reader == CHEAP_PREPEND
    {
      if len < Readable() {
        reader := reader + len;
      } else {
        RetrieveAll();
      }
    }

    method RetrieveAll()
      requires Valid()
      modifies this
      ensures Valid() && data == old(data) && Contents() == [] && reader == CHEAP_PREPEND
    {
      reader, writer := CHEAP_PREPEND, CHEAP_PREPEND;
    }

    /** `end` is an index into the array, between the two indices. */
    method RetrieveUntil(end: nat)
      requires Valid() && reader <= end <= writer
      modifies this
      ensures Valid() && data == old(data)
      ensures Contents() == old(data[end..writer])
    {
      Retrieve(end - reader);
    }

    method RetrieveString(len: nat) returns (s: seq<Byte>)
      requires Valid() && len <= Readable()
      modifies this
      ensures Valid() && data == old(data)
      ensures s + Contents() == old(Contents()) && |s| == len
    {
      s := data[reader..reader + len];
      Retrieve(len);
    }

    /** vector::resize past the end: a larger block with the old bytes in front. */
    method Grow(size: nat)
      requires Valid() && size >= data.Length
      modifies this`data
      ensures Valid() && fresh(data) && data.Length == size
      ensures Contents() == old(Contents())
    {
      ghost var before := data[..];
      var grown := new Byte[size](_ => 0);
      for i := 0 to data.Length
        invariant data == old(data) && data[..] == before
        invariant grown[..i] == before[..i]
      {
        grown[i] := data[i];
      }
      data := grown;
      assert grown[reader..writer] == before[reader..writer];
    }

    /** std::copy toward the front; source and target overlap when readable > reader - CHEAP_PREPEND. */
    method Compact()
      requires Valid() && CHEAP_PREPEND < reader
      modifies this`reader, this`writer, data
      ensures Valid() && reader == CHEAP_PREPEND && writer == old(writer - reader) + CHEAP_PREPEND
      ensures Contents() == old(Contents())
    {
      ghost var before := data[..];
      var readable := Readable();
      for i := 0 to readable
        invariant reader == old(reader) && writer == old(writer)
        invariant data[CHEAP_PREPEND..CHEAP_PREPEND + i] == before[reader..reader + i]
        invariant data[reader + i..writer] == before[reader + i..writer]
      {
        assert data[reader + i] == data[reader + i..writer][0];
        data[CHEAP_PREPEND + i] := data[reader + i];
      }
      reader := CHEAP_PREPEND;
      writer := reader + readable;
      assert readable == Readable();
    }

    /** Compaction in place when the space on both sides is enough beyond the reserve, growth otherwise. The
        assertion of line 12 always holds. */
    method MakeSpace(len: nat)
      requires Valid() && Writable() < len
      modifies this, data
      ensures Valid() && Writable() >= len
      ensures Contents() == old(Contents())
      ensures data == old(data) <==> old(Writable() + reader) >= len + CHEAP_PREPEND
      ensures data != old(data) ==> fresh(data) && data.Length == old(writer) + len && reader == old(reader)
      ensures data == old(data) ==> reader == CHEAP_PREPEND
    {
      if Writable() + reader < len + CHEAP_PREPEND {
        Grow(writer + len);
      } else {
        assert CHEAP_PREPEND < reader;
        Compact();
      }
    }

    method Ensure(len: nat)
      requires Valid()
      modifies this, data
      ensures Valid() && Writable() >= len
      ensures Contents() == old(Contents())
      ensures data == old(data) || fresh(data)
    {
      if Writable() < len {
        MakeSpace(len);
      }
    }

    /** The bytes land after the writer index; the caller has made room. */
    method Store(bytes: seq<Byte>)
      requires Valid() && |bytes| <= Writable()
      modifies this`writer, data
      ensures Valid() && data == old(data) && writer == old(writer) + |bytes|
      ensures Contents() == old(Contents()) + bytes
    {
      for i := 0 to |bytes|
        invariant Valid() && data == old(data) && reader == old(reader) && writer == old(writer)
        invariant Contents() == old(Contents())
        invariant data[writer..writer + i] == bytes[..i]
      {
        data[writer + i] := bytes[i];
      }
      writer := writer + |bytes|;
    }

    method Append(bytes: seq<Byte>)
      requires Valid()
      modifies this, data
      ensures Valid() && (data == old(data) || fresh(data))
      ensures Contents() == old(Contents()) + bytes
    {
      Ensure(|bytes|);
      Store(bytes);
    }

    method Prepend(bytes: seq<Byte>, len: nat)
      requires Valid() && len <= reader && len <= |bytes|
      modifies this`reader, data
      ensures Valid() && data == old(data)
      ensures Contents() == bytes[..len] + old(Contents())
    {
      ghost var contents := Contents();
      reader := reader - len;
      for i := 0 to len
        invariant Valid() && data == old(data) && reader == old(reader) - len && writer == old(writer)
        invariant data[reader..reader + i] == bytes[..i]
        invariant data[reader + len..writer] == contents
      {
        data[reader + i] := bytes[i];
      }
    }

    method Swap(rhs: Buffer)
      requires Valid() && rhs.Valid()
      modifies this, rhs
      ensures Valid() && rhs.Valid()
      ensures Contents() == old(rhs.Contents()) && rhs.Contents() == old(Contents())
      ensures data == old(rhs.data) && rhs.data == old(data)
    {
      data, rhs.data := rhs.data, data;
      reader, rhs.reader := rhs.reader, reader;
      writer, rhs.writer := rhs.writer, writer;
    }

    /** A copy of the vector replaces the vector. */
    method Shrink()
      requires Valid()
      modifies this`data
      ensures Valid() && fresh(data) && data[..] == old(data[..])
      ensures Contents() == old(Contents())
    {
      data := new Byte[data.Length](i requires 0 <= i < data.Length reads this, data => data[i]);
    }

    /** Scatter read: what does not fit behind the writer index comes through a second block and is appended. */
    method ReadFd(result: ReadResult) returns (n: int)
      requires Valid()
      requires result.Received? ==> |result.bytes| <= Writable() + EXTRA_SIZE
      modifies this, data
      ensures Valid() && (data == old(data) || fresh(data))
      ensures n == if result.Received? then |result.bytes| else -1
      ensures Contents() == old(Contents()) + if result.Received? then result.bytes else []
    {
      var writeSize := Writable();
      match result
      case ReadFailed => n := -1;
      case Received(bytes) =>
        n := |bytes|;
        if n <= writeSize {
          Store(bytes);
        } else {
          Store(bytes[..writeSize]);
          Append(bytes[writeSize..]);
          assert bytes == bytes[..writeSize] + bytes[writeSize..];
        }
    }

    /** `written` is the result of write(2): negative on failure. */
    method WriteFd(written: int) returns (n: int)
      requires Valid() && written <= Readable()
      modifies this`reader
      ensures Valid() && n == written
      ensures Contents() == if written < 0 then old(Contents()) else old(Contents())[written..]
    {
      if written >= 0 {
        reader := reader + written;
      }
      n := written;
    }
  }
}
