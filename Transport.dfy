/**
  The byte-oriented connection to the robot (a serial port, or a test
  socket). It is a collaborator of the command manager, not part of it:
  only the contract of `write`, `read(n)` and `readline` is modelled.

  `inbound` holds every byte the robot has sent that nobody has read yet.
  A read that asks for more than has arrived waits in the real connection;
  here it takes what has arrived and hands back None, so a caller sees that
  it would wait.
 */
module Transport {
  import opened Wrappers
  import opened Frames

  class Connection {
    var inbound: seq<byte>
    var written: seq<seq<byte>>

    constructor (inbound: seq<byte>)
      ensures this.inbound == inbound && written == []
    {
      this.inbound := inbound;
      written := [];
    }

    /** `write(data)`: the bytes go out as one write. */
    method Write(data: seq<byte>)
      modifies this
      ensures written == old(written) + [data]
      ensures inbound == old(inbound)
    {
      written := written + [data];
    }

    /** `read(n)`: exactly `n` bytes. */
    method Read(n: nat) returns (data: Option<seq<byte>>)
      modifies this
      ensures written == old(written)
      ensures n <= |old(inbound)| ==> data == Some(old(inbound)[..n]) && inbound == old(inbound)[n..]
      ensures |old(inbound)| < n ==> data == None && inbound == []
    {
      if n <= |inbound| {
        data := Some(inbound[..n]);
        inbound := inbound[n..];
      } else {
        data := None;
        inbound := [];
      }
    }

    /** `readline()`: the bytes up to and including the first newline. */
    method ReadLine() returns (line: Option<seq<byte>>)
      modifies this
      ensures written == old(written)
      ensures var c := TextData(old(inbound));
        line == c.data && inbound == old(inbound)[c.consumed..]
    {
      var c := TextData(inbound);
      line := c.data;
      inbound := inbound[c.consumed..];
    }
  }
}
