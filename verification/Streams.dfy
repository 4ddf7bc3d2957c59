/** Byte streams in memory. */
module Streams {
  import opened Bits

  class OutputStream {
    var data: seq<byte>

    constructor ()
      ensures data == []
    {
      data := [];
    }

    method WriteByte(b: byte)
      modifies this
      ensures data == old(data) + [b]
    {
      data := data + [b];
    }

    method WriteBytes(bytes: seq<byte>)
      modifies this
      ensures data == old(data) + bytes
    {
      data := data + bytes;
    }
  }

  class InputStream {
    const buffer: seq<byte>
    var position: nat

    ghost predicate Valid()
      reads this
    {
      position <= |buffer|
    }

    /** The bytes not yet read. */
    ghost function Rest(): seq<byte>
      reads this
      requires Valid()
    {
      buffer[position..]
    }

    constructor (bytes: seq<byte>)
      ensures Valid() && Rest() == bytes && buffer == bytes
    {
      buffer := bytes;
      position := 0;
    }

    method IsAvailable(size: int) returns (ok: bool)
      requires Valid()
      ensures ok <==> size <= |Rest()|
    {
      ok := position + size <= |buffer|;
    }

    /** The next byte, or -1 at the end. */
    method ReadByte() returns (value: int)
      requires Valid()
      modifies this
      ensures Valid()
      ensures |old(Rest())| == 0 ==> value == -1 && Rest() == old(Rest())
      ensures |old(Rest())| > 0 ==> value == old(Rest())[0] as int && Rest() == old(Rest())[1..]
    {
      var ok := IsAvailable(1);
      if !ok {
        return -1;
      }
      value := buffer[position];
      position := position + 1;
    }

    /** Reads all of `size` bytes, or none. */
    method ReadN(size: nat) returns (ok: bool, bytes: seq<byte>)
      requires Valid()
      modifies this
      ensures Valid()
      ensures ok <==> size <= |old(Rest())|
      ensures ok ==> bytes == old(Rest())[..size] && Rest() == old(Rest())[size..]
      ensures !ok ==> Rest() == old(Rest())
    {
      ok := IsAvailable(size);
      bytes := [];
      if ok {
        bytes := buffer[position..position + size];
        position := position + size;
      }
    }
  }
}
