/**
  Clients of the command manager that drive it through whole exchanges,
  using nothing but the contracts of its operations.
 */
module Scenarios {
  import opened Wrappers
  import opened Frames
  import opened Transport
  import opened Request
  import opened Wake
  import opened Queues
  import opened Comm

  /**
    A command with code '1' and timestamp 10; the robot answers with the
    text frame `1` `10,OK\n`. The handler receives `OK\n`: the payload keeps
    the newline that `readline` returns.
   */
  method TextResponseDelivered() {
    var ok: seq<byte> := [79, 75, 10];
    var connection := new Connection(EncodeText(49, 10, ok));
    var comm := new AsyncComm(connection, 0.2);
    comm.Start();
    var h := comm.SendCommand([49, 44, 49, 48], 10, 49);
    var o := comm.Step(0.0, false, true);
    assert o == Done && connection.written == [h.command];
    assert comm.responseQueue == [Entry(0.0, h)];
    TextAnswerArrives(comm, h, ok);
  }

  /** The second half of the exchange above: the reply is read and delivered. */
  method TextAnswerArrives(comm: AsyncComm, h: RequestHandler, ok: seq<byte>)
    requires comm.Valid() && comm.running
    requires comm.requestQueue == [] && comm.responseQueue == [Entry(0.0, h)]
    requires h.responseCode == 49 && h.timestamp == 10
    requires IsLine(ok) && comm.connection.inbound == EncodeText(49, 10, ok)
    modifies comm, comm.connection, h
  {
    TextRoundTrip(49, 10, ok, []);
    assert comm.connection.inbound + [] == comm.connection.inbound;
    assert FirstMatch([Entry(0.0, h)], 49, 10) == 0;
    var o := comm.Step(0.1, true, false);
    assert o == Done && h.GetResponse() == Some(ok);
    assert comm.requestQueue == [] && comm.responseQueue == [];
  }

  /**
    With a timeout of 0.2 and no answer, the deadline scan re-queues the
    request and the next wake transmits the same bytes a second time.
   */
  method UnansweredCommandIsResent() {
    var connection := new Connection([]);
    var comm := new AsyncComm(connection, 0.2);
    comm.Start();
    var h := comm.SendCommand([65], 7, 65);
    var o := comm.ProcessInterrupt(0.0);
    assert comm.responseQueue == [Entry(0.0, h)] && comm.requestQueue == [];
    assert connection.written == [[65]] && comm.interrupts == [];
    DeadlinePasses(comm, h);
  }

  /** The second half of the exchange above: the scan at 0.3 and the resend. */
  method DeadlinePasses(comm: AsyncComm, h: RequestHandler)
    requires comm.Valid() && comm.timeout == 0.2 && h.command == [65]
    requires comm.requestQueue == [] && comm.responseQueue == [Entry(0.0, h)]
    requires comm.interrupts == [] && comm.connection.written == [[65]]
    modifies comm, comm.connection
  {
    var es := comm.responseQueue;
    assert ExpiredPrefix(es, 0.3, 0.2) == 1;
    assert es[..1] == es && es[1..] == [];
    assert Requests(es) == [h];
    comm.CheckRequestsTimeout(0.3);
    assert comm.requestQueue == [h] && comm.responseQueue == [];
    assert NewMarkers(1) == [NewMarker];
    var o := comm.ProcessInterrupt(0.3);
    assert comm.connection.written == [[65], [65]];
  }

  /** A binary frame with code 200 and length bytes 3, 0 delivers `xyz`. */
  method BinaryResponseDelivered() {
    var connection := new Connection(EncodeBinary(200, 5, [120, 121, 122]));
    var comm := new AsyncComm(connection, 0.2);
    comm.Start();
    var h := comm.SendCommand([66], 5, 200);
    var o := comm.Step(0.0, false, true);
    assert comm.responseQueue == [Entry(0.0, h)] && comm.requestQueue == [];
    BinaryAnswerArrives(comm, h);
  }

  /** The second half of the exchange above. */
  method BinaryAnswerArrives(comm: AsyncComm, h: RequestHandler)
    requires comm.Valid() && comm.running
    requires comm.requestQueue == [] && comm.responseQueue == [Entry(0.0, h)]
    requires h.responseCode == 200 && h.timestamp == 5
    requires comm.connection.inbound == EncodeBinary(200, 5, [120, 121, 122])
    modifies comm, comm.connection, h
  {
    BinaryRoundTrip(200, 5, [120, 121, 122], []);
    assert comm.connection.inbound + [] == comm.connection.inbound;
    assert FirstMatch([Entry(0.0, h)], 200, 5) == 0;
    var o := comm.Step(0.1, true, false);
    assert o == Done && h.GetResponse() == Some([120, 121, 122]);
  }

  /**
    Two requests in flight, answered youngest first: the younger receives
    its own payload, and the older, skipped over, is queued to be sent
    again rather than given the wrong answer.
   */
  method ReverseOrderAnswers() {
    var b: seq<byte> := [66, 10];
    var connection := new Connection(EncodeText(49, 2, b));
    var comm := new AsyncComm(connection, 0.2);
    var h1, h2 := SendTwo(comm);
    TransmitFirst(comm, h1, h2);
    TransmitSecond(comm, h1, h2);
    AnswerTheYounger(comm, h1, h2, b);
  }

  /** Two commands with response code '1' and timestamps 1 and 2, queued in that order. */
  method SendTwo(comm: AsyncComm) returns (h1: RequestHandler, h2: RequestHandler)
    requires comm.Valid()
    requires comm.requestQueue == [] && comm.responseQueue == [] && comm.interrupts == []
    modifies comm
    ensures comm.Valid() && fresh(h1) && fresh(h2)
    ensures comm.requestQueue == [h1, h2] && comm.responseQueue == []
    ensures comm.interrupts == [NewMarker, NewMarker]
    ensures h1.timestamp == 1 && h2.responseCode == 49 && h2.timestamp == 2
  {
    h1 := comm.SendCommand([1], 1, 49);
    h2 := comm.SendCommand([2], 2, 49);
  }

  /** The first wake marker of the exchange above, handled at time 0. */
  method TransmitFirst(comm: AsyncComm, h1: RequestHandler, h2: RequestHandler)
    requires comm.Valid()
    requires comm.requestQueue == [h1, h2] && comm.responseQueue == []
    requires comm.interrupts == [NewMarker, NewMarker]
    modifies comm, comm.connection
    ensures comm.Valid() && comm.requestQueue == [h2]
    ensures comm.responseQueue == [Entry(0.0, h1)] && comm.interrupts == [NewMarker]
    ensures comm.connection.inbound == old(comm.connection.inbound)
  {
    assert [NewMarker, NewMarker][1..] == [NewMarker] && [h1, h2][1..] == [h2];
    var o := comm.ProcessInterrupt(0.0);
  }

  /** The second wake marker, also at time 0. */
  method TransmitSecond(comm: AsyncComm, h1: RequestHandler, h2: RequestHandler)
    requires comm.Valid()
    requires comm.requestQueue == [h2] && comm.responseQueue == [Entry(0.0, h1)]
    requires comm.interrupts == [NewMarker]
    modifies comm, comm.connection
    ensures comm.Valid() && comm.requestQueue == []
    ensures comm.responseQueue == [Entry(0.0, h1), Entry(0.0, h2)]
    ensures comm.connection.inbound == old(comm.connection.inbound)
  {
    var o := comm.ProcessInterrupt(0.0);
    assert [Entry(0.0, h1)] + [Entry(0.0, h2)] == [Entry(0.0, h1), Entry(0.0, h2)];
  }

  /**
    The second half of the exchange above: the text frame `1` `2,B\n`
    arrives while both requests are in flight.
   */
  method AnswerTheYounger(comm: AsyncComm, h1: RequestHandler, h2: RequestHandler, b: seq<byte>)
    requires comm.Valid() && comm.requestQueue == []
    requires comm.responseQueue == [Entry(0.0, h1), Entry(0.0, h2)]
    requires h1.timestamp == 1 && h2.responseCode == 49 && h2.timestamp == 2
    requires IsLine(b) && comm.connection.inbound == EncodeText(49, 2, b)
    modifies comm, comm.connection, h1, h2
  {
    ghost var es := comm.responseQueue;
    SecondAnswered(h1, h2);
    TextRoundTrip(49, 2, b, []);
    assert comm.connection.inbound + [] == comm.connection.inbound;
    var o := comm.ReadResponse();
    assert o == Done;
    assert h2.GetResponse() == Some(b);
    assert comm.requestQueue == [h1] && comm.responseQueue == [];
  }

  /** Of two entries in flight, the frame (49, 2) belongs to the younger one. */
  lemma SecondAnswered(h1: RequestHandler, h2: RequestHandler)
    requires h1.timestamp == 1 && h2.responseCode == 49 && h2.timestamp == 2
    ensures FirstMatch([Entry(0.0, h1), Entry(0.0, h2)], 49, 2) == 1
    ensures [Entry(0.0, h1), Entry(0.0, h2)][..1] == [Entry(0.0, h1)]
    ensures Requests([Entry(0.0, h1)]) == [h1]
  {
    assert [Entry(0.0, h1), Entry(0.0, h2)][1..] == [Entry(0.0, h2)];
  }
}
