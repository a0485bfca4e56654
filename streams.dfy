/** The two kinds of .NET stream the converter uses: a stream it reads with a
    movable position (the opened file, the in-memory scene text) and a memory
    stream it appends to (the screenshot copy, the compressed frame). */
module Streams {
  import opened Common

  /** A readable stream over fixed contents with a movable position. Every
      read in the converter fills its buffer from index 0, so `Read` takes no
      offset. */
  class InStream {
    const data: seq<byte>
    var position: nat

    ghost predicate Valid()
      reads this
    {
      position <= |data|
    }

    constructor (contents: seq<byte>)
      ensures Valid() && data == contents && position == 0
    {
      data := contents;
      position := 0;
    }

    /** The bytes still to be read. */
    function Remaining(): (r: seq<byte>)
      reads this
      requires Valid()
      ensures data == data[..position] + r
    {
      data[position..]
    }

    /** `Stream.Read(buffer, 0, count)`: copies up to `count` bytes into the
        front of `buffer` and says how many it copied; the rest of the buffer
        keeps its old bytes. */
    method Read(buffer: array<byte>, count: nat) returns (n: nat)
      requires Valid() && count <= buffer.Length
      modifies this, buffer
      ensures Valid()
      ensures n == Min(count, |data| - old(position))
      ensures position == old(position) + n
      ensures buffer[..] == data[old(position)..position] + old(buffer[n..])
    {
      n := Min(count, |data| - position);
      forall i | 0 <= i < n {
        buffer[i] := data[position + i];
      }
      position := position + n;
      assert buffer[..] == data[old(position)..position] + old(buffer[n..]);
    }

    /** `Stream.ReadByte`: the next byte, or -1 at the end of the stream. */
    method ReadByte() returns (v: int)
      requires Valid()
      modifies this
      ensures Valid()
      ensures old(position) == |data| ==> v == -1 && position == old(position)
      ensures old(position) < |data| ==> v == data[old(position)] as int && position == old(position) + 1
    {
      if position == |data| {
        v := -1;
      } else {
        v := data[position] as int;
        position := position + 1;
      }
    }
  }

  /** A memory stream that is only written to, always at its end. */
  class OutStream {
    var contents: seq<byte>

    constructor ()
      ensures contents == []
    {
      contents := [];
    }

    /** `Stream.Write(buffer, 0, count)`. */
    method Write(buffer: array<byte>, count: nat)
      requires count <= buffer.Length
      modifies this
      ensures contents == old(contents) + buffer[..count]
    {
      contents := contents + buffer[..count];
    }

    /** `Stream.WriteByte`. */
    method WriteByte(b: byte)
      modifies this
      ensures contents == old(contents) + [b]
    {
      contents := contents + [b];
    }

    /** What a library coder that the model does not see writes to the stream. */
    method WriteBytes(bytes: seq<byte>)
      modifies this
      ensures contents == old(contents) + bytes
    {
      contents := contents + bytes;
    }
  }
}
