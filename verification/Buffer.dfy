/** The byte cursors the codecs run on. */
module Buffer {
  import opened Bytes
  import opened Wrappers

  datatype RnsError = OutOfMemory | PacketError | InvalidArgument | IncorrectSignature | CryptoError | LinkClosed

  class OutputBuffer {
    const buffer: array<byte>
    var offset: nat

    ghost predicate Valid()
      reads this
    {
      offset <= buffer.Length
    }

    ghost function Contents(): seq<byte>
      reads this, buffer
      requires Valid()
    {
      buffer[..offset]
    }

    constructor (buffer: array<byte>)
      ensures Valid() && this.buffer == buffer && Contents() == []
    {
      this.buffer := buffer;
      offset := 0;
    }

    /** Appends all of `data` or, when it does not fit, nothing. */
    method Write(data: seq<byte>) returns (r: Result<nat, RnsError>)
      requires Valid()
      modifies this, buffer
      ensures Valid()
      ensures r.Ok? <==> old(offset) + |data| <= buffer.Length
      ensures r == if r.Ok? then Ok(|data|) else Err(OutOfMemory)
      ensures Contents() == if r.Ok? then old(Contents()) + data else old(Contents())
    {
      if data == [] {
        return Ok(0);
      }
      if offset + |data| > buffer.Length {
        return Err(OutOfMemory);
      }
      for i := 0 to |data|
        invariant offset == old(offset)
        invariant buffer[..offset] == old(Contents())
        invariant buffer[offset..offset + i] == data[..i]
      {
        buffer[offset + i] := data[i];
      }
      offset := offset + |data|;
      assert buffer[..offset] == buffer[..old(offset)] + buffer[old(offset)..offset];
      return Ok(|data|);
    }
  }

  /** The next `n` bytes and what follows them. */
  function Take(bytes: seq<byte>, n: nat): Result<(seq<byte>, seq<byte>), RnsError> {
    if n <= |bytes| then Ok((bytes[..n], bytes[n..])) else Err(OutOfMemory)
  }

  class InputBuffer {
    const buffer: seq<byte>
    var offset: nat

    ghost predicate Valid()
      reads this
    {
      offset <= |buffer|
    }

    /** What has not been read. */
    ghost function Rest(): seq<byte>
      reads this
      requires Valid()
    {
      buffer[offset..]
    }

    constructor (buffer: seq<byte>)
      ensures Valid() && Rest() == buffer
    {
      this.buffer := buffer;
      offset := 0;
    }

    /** Takes the next `size` bytes or, when there are fewer, none. */
    method Read(size: nat) returns (r: Result<seq<byte>, RnsError>)
      requires Valid()
      modifies this
      ensures Valid()
      ensures match Take(old(Rest()), size)
        case Ok((head, rest)) => r == Ok(head) && |head| == size && Rest() == rest
        case Err(e) => r == Err(e) && Rest() == old(Rest())
    {
      if offset + size > |buffer| {
        return Err(OutOfMemory);
      }
      assert buffer[offset..offset + size] == Rest()[..size];
      r := Ok(buffer[offset..offset + size]);
      offset := offset + size;
    }

    method BytesLeft() returns (n: nat)
      requires Valid()
      ensures n == |Rest()|
    {
      n := |buffer| - offset;
    }
  }
}
