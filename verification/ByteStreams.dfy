/** The reader and writer over a byte buffer, with the effect of each call as a function. */
module ByteStreams {
  import opened Bytes

  /** What a read produced and the read position it left behind. */
  datatype Parsed<+T> = Parsed(value: T, next: nat)

  function Align(pos: nat, alignment: nat): (r: nat)
    requires alignment > 0
    ensures pos <= r < pos + alignment
  {
    if pos % alignment == 0 then pos else pos + (alignment - pos % alignment)
  }

  /** Past the end a byte read gives 0 and does not move. */
  function ByteAt(buf: seq<byte>, pos: nat): Parsed<byte> {
    if pos >= |buf| then Parsed(0, pos) else Parsed(buf[pos], pos + 1)
  }

  /** A block that does not fit leaves the destination, and the position, as they were. */
  function BlockAt(buf: seq<byte>, pos: nat, dest: seq<byte>): (r: Parsed<seq<byte>>)
    ensures |r.value| == |dest|
  {
    if pos + |dest| > |buf| then Parsed(dest, pos)
    else Parsed(buf[pos..pos + |dest|], pos + |dest|)
  }

  class ByteBufferStreamReader {
    const bytes: seq<byte>
    var location: nat

    constructor (bytes: seq<byte>)
      ensures this.bytes == bytes && location == 0
    {
      this.bytes := bytes;
      location := 0;
    }

    method ReadByte() returns (b: byte)
      modifies this
      ensures Parsed(b, location) == ByteAt(bytes, old(location))
    {
      if location >= |bytes| {
        return 0;
      }
      b := bytes[location];
      location := location + 1;
    }

    method ReadBytes(dest: seq<byte>) returns (filled: seq<byte>)
      modifies this
      ensures Parsed(filled, location) == BlockAt(bytes, old(location), dest)
    {
      if location + |dest| > |bytes| {
        return dest;
      }
      filled := bytes[location..location + |dest|];
      location := location + |dest|;
    }

    method ReadAlignment(alignment: nat)
      requires alignment > 0
      modifies this
      ensures location == Align(old(location), alignment)
    {
      var mod := location % alignment;
      if mod != 0 {
        location := location + (alignment - mod);
      }
    }
  }

  class ByteBufferStreamWriter {
    var bytes: seq<byte>

    constructor ()
      ensures bytes == []
    {
      bytes := [];
    }

    method WriteByte(b: byte)
      modifies this
      ensures bytes == old(bytes) + [b]
    {
      bytes := bytes + [b];
    }

    method WriteBytes(data: seq<byte>)
      requires |data| > 0
      modifies this
      ensures bytes == old(bytes) + data
    {
      bytes := bytes + data;
    }

    method WriteAlignment(alignment: nat)
      requires alignment > 0
      modifies this
      ensures bytes == old(bytes) + Zeros(Align(|old(bytes)|, alignment) - |old(bytes)|)
    {
      var mod := |bytes| % alignment;
      if mod != 0 {
        for i := 0 to alignment - mod
          invariant bytes == old(bytes) + Zeros(i)
        {
          WriteByte(0);
        }
      }
    }
  }
}
