/** The serial port, seen from the host: bytes the device has sent that are
    still to be read, and the log of everything the host has written. A read
    with a timeout returns at most the bytes that are there. */
module Serial {
  import opened Bytes

  class SerialLink {
    /** Bytes that arrive before the read timeout and are not yet consumed. */
    var input: seq<byte>
    /** Every buffer handed to `write`, in order. */
    var written: seq<seq<byte>>

    constructor (incoming: seq<byte>)
      ensures input == incoming && written == []
    {
      input := incoming;
      written := [];
    }

    /** `ser.write(data)`. */
    method Write(data: seq<byte>)
      modifies this
      ensures written == old(written) + [data]
      ensures input == old(input)
    {
      written := written + [data];
    }

    /** `ser.read(n)`: up to n bytes; fewer when the timeout expires first. */
    method Read(n: nat) returns (got: seq<byte>)
      modifies this
      ensures got == old(input)[..Min(n, |old(input)|)]
      ensures input == old(input)[|got|..]
      ensures written == old(written)
    {
      got := input[..Min(n, |input|)];
      input := input[|got|..];
    }
  }
}
