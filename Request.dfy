/**
  The request handler: the record that binds a command sent to the robot
  to the response the robot eventually sends back for it.
 */
module Request {
  import opened Wrappers
  import opened Frames

  class RequestHandler {
    /** The raw bytes to transmit. */
    const command: seq<byte>
    /** The code the robot's response to this command starts with. */
    const responseCode: byte
    /** The caller's correlation token, echoed by the robot. */
    const timestamp: int
    /** The payload, once a response has been delivered. */
    var response: Option<seq<byte>>

    constructor (command: seq<byte>, responseCode: byte, timestamp: int)
      ensures this.command == command
      ensures this.responseCode == responseCode && this.timestamp == timestamp
      ensures !ResponseReceived() && GetResponse() == None
    {
      this.command := command;
      this.responseCode := responseCode;
      this.timestamp := timestamp;
      response := None;
    }

    function GetCommand(): seq<byte> {
      command
    }

    /** Whether a frame carrying `code` and `ts` answers this request. */
    predicate OwnResponse(code: byte, ts: int) {
      code == responseCode && timestamp == ts
    }

    /** Stores the payload; waking the threads blocked in `join` is not modelled. */
    method SetResponse(r: seq<byte>)
      modifies this`response
      ensures ResponseReceived() && GetResponse() == Some(r)
    {
      response := Some(r);
    }

    function GetResponse(): Option<seq<byte>>
      reads this
    {
      response
    }

    predicate ResponseReceived()
      reads this
    {
      response != None
    }
  }

  /**
    Two handlers with different (code, timestamp) pairs never both own one
    frame, so a frame is never delivered to the wrong one of them.
   */
  lemma OwnershipIsExclusive(a: RequestHandler, b: RequestHandler, code: byte, ts: int)
    requires (a.responseCode, a.timestamp) != (b.responseCode, b.timestamp)
    ensures !(a.OwnResponse(code, ts) && b.OwnResponse(code, ts))
  {
  }

  // ---------------------------------------------------------------------
  // The timestamp as the source compares it
  // ---------------------------------------------------------------------

  /** The Python value a timestamp is held in: an int, or a string. */
  datatype PyValue = PyInt(i: int) | PyStr(s: seq<byte>)

  /** The binary branch keeps the timestamp as the one-character string `read(1)` returns. */
  function BinaryTimestampAsWritten(b: byte): PyValue {
    PyStr([b])
  }

  /** `own_response` as written: Python 2's `==` between an int and a string is False. */
  predicate OwnResponseAsWritten(h: RequestHandler, code: byte, ts: PyValue) {
    code == h.responseCode && ts == PyInt(h.timestamp)
  }

  /**
    As written, a binary frame is never owned by a handler created with an
    integer timestamp, even when it echoes that timestamp's value.
   */
  lemma BinaryTimestampNeverMatchesAsWritten(h: RequestHandler, code: byte, b: byte)
    ensures !OwnResponseAsWritten(h, code, BinaryTimestampAsWritten(b))
  {
  }

  /**
    Compared on the byte's value, a binary frame that echoes a handler's
    code and timestamp is owned by that handler, whatever follows it.
   */
  lemma BinaryEchoReachesItsRequest(h: RequestHandler, payload: seq<byte>, rest: seq<byte>)
    requires IsBinaryCode(h.responseCode) && 0 <= h.timestamp < 256 && |payload| < 0x1_0000
    ensures var d := DecodeFrame(EncodeBinary(h.responseCode, h.timestamp, payload) + rest);
      d.status.Complete? && d.status.frame.payload == payload &&
      h.OwnResponse(d.status.frame.code, d.status.frame.timestamp)
  {
    BinaryRoundTrip(h.responseCode, h.timestamp, payload, rest);
  }
}
